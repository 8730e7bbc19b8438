/**
 * The chained XOR stream cipher of xor.h, as functions of the values it works
 * on. The key is expanded to 256 bytes by a DJB2-style hash; each byte is then
 * XORed with a key byte, substituted through the S-box, XORed with a running
 * state, rotated by that state and XORed with its position. The state is
 * advanced from the ciphertext byte, so encryption and decryption see the
 * same sequence of states. The XORCipher class in XorCipher.dfy computes
 * these functions with the loops of xor.h.
 */
module XorSpec {
  import opened SBox
  import opened ByteOps

  const KeyExpansionSize: nat := 256

  // ---------------------------------------------------------------------------
  // Key expansion
  // ---------------------------------------------------------------------------

  /** One step of the inner hash loop: hash * 33 plus the signed key byte plus the output index. */
  function KeyStep(hash: bv32, c: bv8, i: nat): bv32
    requires i < KeyExpansionSize
  {
    ((hash << 5) + hash) + SignExtend(c) + (i as bv32)
  }

  /** The hash after the inner loop has run over `key` for output index `i`. */
  function MixKey(hash: bv32, key: seq<bv8>, i: nat): bv32
    requires i < KeyExpansionSize
    decreases |key|
  {
    if |key| == 0 then hash else KeyStep(MixKey(hash, key[..|key| - 1], i), key[|key| - 1], i)
  }

  /** The hash rotated right by one byte between output bytes. */
  function RotateHash(hash: bv32): bv32 {
    (hash >> 8) | (hash << 24)
  }

  /** The hash at the start of outer iteration `i`. */
  function HashBefore(key: seq<bv8>, i: nat): bv32
    requires i <= KeyExpansionSize
  {
    if i == 0 then 5381 else RotateHash(MixKey(HashBefore(key, i - 1), key, i - 1))
  }

  /** The least significant byte of a hash. */
  function LowByte(hash: bv32): bv8 {
    (hash & 0xFF) as bv8
  }

  /** Expanded key byte `i` of a non-empty key. */
  function ExpandedByte(key: seq<bv8>, i: nat): bv8
    requires i < KeyExpansionSize
  {
    LowByte(MixKey(HashBefore(key, i), key, i))
  }

  /** The 256-byte expanded key; an empty key leaves the zero-filled buffer as it is. */
  function ExpandKey(key: seq<bv8>): (expanded: seq<bv8>)
    ensures |expanded| == KeyExpansionSize
  {
    if |key| == 0 then seq(KeyExpansionSize, _ => 0)
    else seq(KeyExpansionSize, i requires 0 <= i < KeyExpansionSize => ExpandedByte(key, i))
  }

  /** Whatever the key, the expanded key has 256 bytes, and the empty key expands to zeros. */
  lemma ExpandKeyShape(key: seq<bv8>)
    ensures |ExpandKey(key)| == KeyExpansionSize
    ensures |key| == 0 ==> forall i :: 0 <= i < KeyExpansionSize ==> ExpandKey(key)[i] == 0
    ensures |key| > 0 ==> forall i :: 0 <= i < KeyExpansionSize ==> ExpandKey(key)[i] == ExpandedByte(key, i)
  {
  }

  // ---------------------------------------------------------------------------
  // One byte
  // ---------------------------------------------------------------------------

  /** The XOR of all bytes of `s`: the initial state, taken over the expanded key. */
  function XorAll(s: seq<bv8>): bv8
    decreases |s|
  {
    if |s| == 0 then 0 else XorAll(s[..|s| - 1]) ^ s[|s| - 1]
  }

  /** The position byte: the index modulo 256. */
  function PositionByte(i: nat): bv8 {
    (i % 256) as bv8
  }

  /** The rotation amount taken from the state. */
  function Shift(state: bv8): bv8 {
    state % 8
  }

  /** The state after a byte: state + ciphertext byte + key byte, modulo 256. */
  function NextState(state: bv8, cipherByte: bv8, keyByte: bv8): bv8 {
    state + cipherByte + keyByte
  }

  /** Steps 3 to 5 of encryption: XOR the state, rotate left by the state, XOR the position. */
  function Mix(substituted: bv8, state: bv8, i: nat): bv8 {
    RotateLeft(substituted ^ state, Shift(state)) ^ PositionByte(i)
  }

  /** Steps 1 to 3 of decryption: XOR the position, rotate right by the state, XOR the state. */
  function Unmix(cipher: bv8, state: bv8, i: nat): bv8 {
    RotateRight(cipher ^ PositionByte(i), Shift(state)) ^ state
  }

  /** Encryption of one byte: XOR the key byte, substitute through the S-box, then Mix. */
  function EncryptByte(plain: bv8, keyByte: bv8, state: bv8, i: nat): bv8 {
    Mix(Sbox(plain ^ keyByte), state, i)
  }

  /** Decryption of one byte: Unmix, substitute through the inverse S-box, XOR the key byte. */
  function DecryptByte(cipher: bv8, keyByte: bv8, state: bv8, i: nat): bv8 {
    InvSbox(Unmix(cipher, state, i)) ^ keyByte
  }

  /** Removing the position byte from a mixed byte leaves the rotated byte. */
  lemma UnmaskPosition(substituted: bv8, state: bv8, i: nat)
    ensures Mix(substituted, state, i) ^ PositionByte(i) == RotateLeft(substituted ^ state, Shift(state))
  {
  }

  /** Unmix undoes Mix under the same state and position. */
  lemma UnmixMix(substituted: bv8, state: bv8, i: nat)
    ensures Unmix(Mix(substituted, state, i), state, i) == substituted
  {
    UnmaskPosition(substituted, state, i);
    RotateRightLeft(substituted ^ state, Shift(state));
  }

  /** XORing the key byte back in cancels it. */
  lemma CancelKeyByte(substituted: bv8, plain: bv8, keyByte: bv8)
    requires substituted == plain ^ keyByte
    ensures substituted ^ keyByte == plain
  {
  }

  /** Each step of DecryptByte undoes the matching step of EncryptByte. */
  lemma DecryptEncryptByte(plain: bv8, keyByte: bv8, state: bv8, i: nat)
    ensures DecryptByte(EncryptByte(plain, keyByte, state, i), keyByte, state, i) == plain
  {
    var substituted := Sbox(plain ^ keyByte);
    UnmixMix(substituted, state, i);
    InvSboxSbox(plain ^ keyByte);
    CancelKeyByte(InvSbox(Unmix(Mix(substituted, state, i), state, i)), plain, keyByte);
  }

  // ---------------------------------------------------------------------------
  // Streams
  // ---------------------------------------------------------------------------

  /**
   * A byte transform of the cipher: from an input byte, the key byte, the
   * running state and the position, the output byte. EncryptByte and
   * DecryptByte are the two the cipher uses.
   */
  type ByteTransform = (bv8, bv8, bv8, nat) -> bv8

  /**
   * The encryption loop from position `i` with running state `state`: each
   * output byte is `f` of the input byte, and the state then advances with
   * that output byte and the key byte of the position.
   */
  function ChainEncrypt(plain: seq<bv8>, expanded: seq<bv8>, state: bv8, i: nat, f: ByteTransform): (cipher: seq<bv8>)
    requires |expanded| == KeyExpansionSize
    ensures |cipher| == |plain|
    decreases |plain|
  {
    if |plain| == 0 then []
    else
      var keyByte := expanded[i % KeyExpansionSize];
      var c := f(plain[0], keyByte, state, i);
      [c] + ChainEncrypt(plain[1..], expanded, NextState(state, c, keyByte), i + 1, f)
  }

  /**
   * The decryption loop from position `i` with running state `state`: each
   * output byte is `g` of the input byte, and the state then advances with
   * that input byte, the ciphertext, and the key byte of the position.
   */
  function ChainDecrypt(cipher: seq<bv8>, expanded: seq<bv8>, state: bv8, i: nat, g: ByteTransform): (plain: seq<bv8>)
    requires |expanded| == KeyExpansionSize
    ensures |plain| == |cipher|
    decreases |cipher|
  {
    if |cipher| == 0 then []
    else
      var keyByte := expanded[i % KeyExpansionSize];
      [g(cipher[0], keyByte, state, i)] + ChainDecrypt(cipher[1..], expanded, NextState(state, cipher[0], keyByte), i + 1, g)
  }

  /** The states before each byte, as the ciphertext drives them from `state` at position `i`. */
  function StatesFrom(cipher: seq<bv8>, expanded: seq<bv8>, state: bv8, i: nat): (states: seq<bv8>)
    requires |expanded| == KeyExpansionSize
    ensures |states| == |cipher|
    decreases |cipher|
  {
    if |cipher| == 0 then []
    else [state] + StatesFrom(cipher[1..], expanded, NextState(state, cipher[0], expanded[i % KeyExpansionSize]), i + 1)
  }

  /** The state both directions start from: the XOR of the 256 expanded-key bytes. */
  function InitialState(expanded: seq<bv8>): bv8 {
    XorAll(expanded)
  }

  /** The states of a whole ciphertext, from the initial state at position 0. */
  function States(ciphertext: seq<bv8>, expanded: seq<bv8>): (states: seq<bv8>)
    requires |expanded| == KeyExpansionSize
    ensures |states| == |ciphertext|
  {
    StatesFrom(ciphertext, expanded, InitialState(expanded), 0)
  }

  /** encrypt: empty for empty input, otherwise the encryption loop from the initial state. */
  function Encrypt(plaintext: seq<bv8>, expanded: seq<bv8>): (ciphertext: seq<bv8>)
    requires |expanded| == KeyExpansionSize
    ensures |ciphertext| == |plaintext|
  {
    if |plaintext| == 0 then [] else ChainEncrypt(plaintext, expanded, InitialState(expanded), 0, EncryptByte)
  }

  /** decrypt: empty for empty input, otherwise the decryption loop from the same initial state. */
  function Decrypt(ciphertext: seq<bv8>, expanded: seq<bv8>): (plaintext: seq<bv8>)
    requires |expanded| == KeyExpansionSize
    ensures |plaintext| == |ciphertext|
  {
    if |ciphertext| == 0 then [] else ChainDecrypt(ciphertext, expanded, InitialState(expanded), 0, DecryptByte)
  }

  // ---------------------------------------------------------------------------
  // Properties of the loops, for any byte transforms
  // ---------------------------------------------------------------------------

  /**
   * The output byte at position j (counted from the start of the stream, so
   * at index j - i) is `f` of the input byte there, under the key byte of
   * position j and the state the ciphertext drives to that position.
   */
  lemma {:induction false} ChainEncryptAt(plain: seq<bv8>, expanded: seq<bv8>, state: bv8, i: nat, f: ByteTransform, j: nat)
    requires |expanded| == KeyExpansionSize && i <= j < i + |plain|
    ensures var cipher := ChainEncrypt(plain, expanded, state, i, f);
      cipher[j - i] == f(plain[j - i], expanded[j % KeyExpansionSize], StatesFrom(cipher, expanded, state, i)[j - i], j)
    decreases j - i
  {
    if j > i {
      var cipher := ChainEncrypt(plain, expanded, state, i, f);
      var next := NextState(state, cipher[0], expanded[i % KeyExpansionSize]);
      var rest := ChainEncrypt(plain[1..], expanded, next, i + 1, f);
      assert cipher == [cipher[0]] + rest;
      ChainEncryptAt(plain[1..], expanded, next, i + 1, f, j);
      assert StatesFrom(cipher, expanded, state, i) == [state] + StatesFrom(rest, expanded, next, i + 1);
    }
  }

  /** The output byte at position j is `g` of the input byte there, under the state the input drives. */
  lemma {:induction false} ChainDecryptAt(cipher: seq<bv8>, expanded: seq<bv8>, state: bv8, i: nat, g: ByteTransform, j: nat)
    requires |expanded| == KeyExpansionSize && i <= j < i + |cipher|
    ensures ChainDecrypt(cipher, expanded, state, i, g)[j - i] ==
      g(cipher[j - i], expanded[j % KeyExpansionSize], StatesFrom(cipher, expanded, state, i)[j - i], j)
    decreases j - i
  {
    if j > i {
      var next := NextState(state, cipher[0], expanded[i % KeyExpansionSize]);
      ChainDecryptAt(cipher[1..], expanded, next, i + 1, g, j);
    }
  }

  /** When `g` undoes `f` byte by byte, the decryption loop undoes the encryption loop. */
  lemma {:induction false} ChainDecryptEncrypt(plain: seq<bv8>, expanded: seq<bv8>, state: bv8, i: nat, f: ByteTransform, g: ByteTransform)
    requires |expanded| == KeyExpansionSize
    requires forall p, k, s, n :: g(f(p, k, s, n), k, s, n) == p
    ensures ChainDecrypt(ChainEncrypt(plain, expanded, state, i, f), expanded, state, i, g) == plain
    decreases |plain|
  {
    if |plain| > 0 {
      var keyByte := expanded[i % KeyExpansionSize];
      var c := f(plain[0], keyByte, state, i);
      var next := NextState(state, c, keyByte);
      var rest := ChainEncrypt(plain[1..], expanded, next, i + 1, f);
      var cipher := ChainEncrypt(plain, expanded, state, i, f);
      assert cipher == [c] + rest;
      assert cipher[0] == c && cipher[1..] == rest;
      ChainDecryptEncrypt(plain[1..], expanded, next, i + 1, f, g);
      assert ChainDecrypt(cipher, expanded, state, i, g) == [g(c, keyByte, state, i)] + ChainDecrypt(rest, expanded, next, i + 1, g);
      assert plain == [plain[0]] + plain[1..];
    }
  }

  /** Output byte n depends only on input bytes 0 .. n: encrypting a longer stream extends the output. */
  lemma {:induction false} ChainEncryptPrefix(p: seq<bv8>, q: seq<bv8>, expanded: seq<bv8>, state: bv8, i: nat, f: ByteTransform)
    requires |expanded| == KeyExpansionSize
    ensures ChainEncrypt(p + q, expanded, state, i, f)[..|p|] == ChainEncrypt(p, expanded, state, i, f)
    decreases |p|
  {
    if |p| > 0 {
      var keyByte := expanded[i % KeyExpansionSize];
      var c := f(p[0], keyByte, state, i);
      assert (p + q)[0] == p[0];
      assert (p + q)[1..] == p[1..] + q;
      ChainEncryptPrefix(p[1..], q, expanded, NextState(state, c, keyByte), i + 1, f);
    }
  }

  // ---------------------------------------------------------------------------
  // Properties of the cipher
  // ---------------------------------------------------------------------------

  /**
   * Ciphertext byte n is EncryptByte of plaintext byte n under key byte
   * n mod 256 and state n of the states the ciphertext drives.
   */
  lemma EncryptAt(plaintext: seq<bv8>, expanded: seq<bv8>, n: nat)
    requires |expanded| == KeyExpansionSize && n < |plaintext|
    ensures var ciphertext := Encrypt(plaintext, expanded);
      ciphertext[n] == EncryptByte(plaintext[n], expanded[n % KeyExpansionSize], States(ciphertext, expanded)[n], n)
  {
    var ciphertext := ChainEncrypt(plaintext, expanded, InitialState(expanded), 0, EncryptByte);
    assert Encrypt(plaintext, expanded) == ciphertext;
    ChainEncryptAt(plaintext, expanded, InitialState(expanded), 0, EncryptByte, n);
  }

  /**
   * Plaintext byte n is DecryptByte of ciphertext byte n under the same key
   * byte and the same state as in EncryptAt: the two directions track one
   * state sequence.
   */
  lemma DecryptAt(ciphertext: seq<bv8>, expanded: seq<bv8>, n: nat)
    requires |expanded| == KeyExpansionSize && n < |ciphertext|
    ensures Decrypt(ciphertext, expanded)[n] ==
      DecryptByte(ciphertext[n], expanded[n % KeyExpansionSize], States(ciphertext, expanded)[n], n)
  {
    var plaintext := ChainDecrypt(ciphertext, expanded, InitialState(expanded), 0, DecryptByte);
    assert Decrypt(ciphertext, expanded) == plaintext;
    ChainDecryptAt(ciphertext, expanded, InitialState(expanded), 0, DecryptByte, n);
  }

  /** Under the same expanded key, decrypt(encrypt(p)) == p. */
  lemma DecryptEncrypt(plaintext: seq<bv8>, expanded: seq<bv8>)
    requires |expanded| == KeyExpansionSize
    ensures Decrypt(Encrypt(plaintext, expanded), expanded) == plaintext
  {
    if |plaintext| > 0 {
      forall p, k, s, n ensures DecryptByte(EncryptByte(p, k, s, n), k, s, n) == p {
        DecryptEncryptByte(p, k, s, n);
      }
      ChainDecryptEncrypt(plaintext, expanded, InitialState(expanded), 0, EncryptByte, DecryptByte);
    }
  }

  /** encrypt(p) is a prefix of encrypt(p ++ q). */
  lemma EncryptPrefix(p: seq<bv8>, q: seq<bv8>, expanded: seq<bv8>)
    requires |expanded| == KeyExpansionSize
    ensures Encrypt(p + q, expanded)[..|p|] == Encrypt(p, expanded)
  {
    if |p| > 0 {
      ChainEncryptPrefix(p, q, expanded, InitialState(expanded), 0, EncryptByte);
    }
  }
}
