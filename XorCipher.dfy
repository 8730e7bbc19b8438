/**
 * The XORCipher class of xor.h: the user key and its 256-byte expansion,
 * filled by the constructor, and the byte loops of encrypt and decrypt with
 * their running state. Each method is proved to compute the matching
 * function of XorSpec, whose round-trip and prefix lemmas then carry over.
 */
module XorCipher {
  import opened SBox
  import opened ByteOps
  import XorSpec

  class XORCipher {
    /** The user key, one byte per `char`. */
    var key: seq<bv8>
    /** The expanded key. */
    var expandedKey: seq<bv8>

    /**
     * The expanded key always has 256 bytes once the constructor has run, so
     * the "key not initialised" branches of encrypt and decrypt never fire.
     */
    ghost predicate Valid()
      reads this
    {
      |expandedKey| == XorSpec.KeyExpansionSize
    }

    /** Stores the key and expands it. */
    constructor (userKey: seq<bv8>)
      ensures Valid()
      ensures key == userKey
      ensures expandedKey == XorSpec.ExpandKey(userKey)
    {
      key := userKey;
      expandedKey := [];
      new;
      ExpandKey();
    }

    /**
     * Resets the expanded key to 256 zero bytes and, for a non-empty key,
     * fills it with the low bytes of the running DJB2-style hash.
     */
    method ExpandKey()
      modifies this
      ensures Valid()
      ensures key == old(key)
      ensures expandedKey == XorSpec.ExpandKey(key)
    {
      expandedKey := seq(XorSpec.KeyExpansionSize, _ => 0);
      if |key| == 0 {
        return;
      }
      var hash: bv32 := 5381;
      var i := 0;
      while i < XorSpec.KeyExpansionSize
        invariant 0 <= i <= XorSpec.KeyExpansionSize
        invariant key == old(key)
        invariant |expandedKey| == XorSpec.KeyExpansionSize
        invariant hash == XorSpec.HashBefore(key, i)
        invariant forall m :: 0 <= m < i ==> expandedKey[m] == XorSpec.ExpandedByte(key, m)
      {
        hash := MixKey(hash, key, i);
        expandedKey := expandedKey[i := XorSpec.LowByte(hash)];
        hash := XorSpec.RotateHash(hash);
        i := i + 1;
      }
    }

    /** The inner loop of the key expansion: one DJB2 step per key byte for output index `i`. */
    static method MixKey(start: bv32, key: seq<bv8>, i: nat) returns (hash: bv32)
      requires i < XorSpec.KeyExpansionSize
      ensures hash == XorSpec.MixKey(start, key, i)
    {
      hash := start;
      var j := 0;
      while j < |key|
        invariant 0 <= j <= |key|
        invariant hash == XorSpec.MixKey(start, key[..j], i)
      {
        assert key[..j + 1][..j] == key[..j];
        hash := XorSpec.KeyStep(hash, key[j], i);
        j := j + 1;
      }
      assert key[..j] == key;
    }

    /** The XOR of all expanded-key bytes, the state both directions start from. */
    method InitialState() returns (state: bv8)
      requires Valid()
      ensures state == XorSpec.InitialState(expandedKey)
    {
      state := 0;
      var m := 0;
      while m < |expandedKey|
        invariant 0 <= m <= |expandedKey|
        invariant state == XorSpec.XorAll(expandedKey[..m])
      {
        assert expandedKey[..m + 1][..m] == expandedKey[..m];
        state := state ^ expandedKey[m];
        m := m + 1;
      }
      assert expandedKey[..m] == expandedKey;
    }

    /** encrypt: empty for empty input, otherwise the byte loop from the initial state. */
    method Encrypt(plaintext: seq<bv8>) returns (ciphertext: seq<bv8>)
      requires Valid()
      ensures ciphertext == XorSpec.Encrypt(plaintext, expandedKey)
    {
      if |plaintext| == 0 {
        return [];
      }
      var state := InitialState();
      ciphertext := EncryptBytes(plaintext, state, XorSpec.EncryptByte);
    }

    /**
     * The byte loop of encrypt from `initialState`: each byte goes through the five
     * steps of EncryptByte, then the state advances with the ciphertext byte.
     * `encrypt` stands for EncryptByte in the loop's reasoning, which
     * therefore never looks inside a byte.
     */
    method EncryptBytes(plaintext: seq<bv8>, initialState: bv8, ghost encrypt: XorSpec.ByteTransform) returns (ciphertext: seq<bv8>)
      requires Valid()
      requires forall p, k, s, n {:trigger XorSpec.EncryptByte(p, k, s, n)} :: encrypt(p, k, s, n) == XorSpec.EncryptByte(p, k, s, n)
      ensures ciphertext == XorSpec.ChainEncrypt(plaintext, expandedKey, initialState, 0, encrypt)
    {
      var state := initialState;
      ghost var target := XorSpec.ChainEncrypt(plaintext, expandedKey, initialState, 0, encrypt);
      ciphertext := [];
      var i := 0;
      while i < |plaintext|
        invariant 0 <= i <= |plaintext|
        invariant ciphertext + XorSpec.ChainEncrypt(plaintext[i..], expandedKey, state, i, encrypt) == target
      {
        var keyByte := expandedKey[i % XorSpec.KeyExpansionSize];
        var temp := XorSpec.EncryptByte(plaintext[i], keyByte, state, i);
        assert plaintext[i..][1..] == plaintext[i + 1..];
        ciphertext := ciphertext + [temp];
        state := XorSpec.NextState(state, temp, keyByte);
        i := i + 1;
      }
    }


    /** decrypt: empty for empty input, otherwise the byte loop from the same initial state. */
    method Decrypt(ciphertext: seq<bv8>) returns (plaintext: seq<bv8>)
      requires Valid()
      ensures plaintext == XorSpec.Decrypt(ciphertext, expandedKey)
    {
      if |ciphertext| == 0 {
        return [];
      }
      var state := InitialState();
      plaintext := DecryptBytes(ciphertext, state, XorSpec.DecryptByte);
    }

    /**
     * The byte loop of decrypt from `initialState`: each byte goes through the five
     * inverse steps of DecryptByte, then the state advances with the same
     * ciphertext byte; `decrypt` stands for DecryptByte as in EncryptBytes.
     */
    method DecryptBytes(ciphertext: seq<bv8>, initialState: bv8, ghost decrypt: XorSpec.ByteTransform) returns (plaintext: seq<bv8>)
      requires Valid()
      requires forall c, k, s, n {:trigger XorSpec.DecryptByte(c, k, s, n)} :: decrypt(c, k, s, n) == XorSpec.DecryptByte(c, k, s, n)
      ensures plaintext == XorSpec.ChainDecrypt(ciphertext, expandedKey, initialState, 0, decrypt)
    {
      var state := initialState;
      ghost var target := XorSpec.ChainDecrypt(ciphertext, expandedKey, initialState, 0, decrypt);
      plaintext := [];
      var i := 0;
      while i < |ciphertext|
        invariant 0 <= i <= |ciphertext|
        invariant plaintext + XorSpec.ChainDecrypt(ciphertext[i..], expandedKey, state, i, decrypt) == target
      {
        var keyByte := expandedKey[i % XorSpec.KeyExpansionSize];
        var plainByte := XorSpec.DecryptByte(ciphertext[i], keyByte, state, i);
        assert ciphertext[i..][1..] == ciphertext[i + 1..];
        plaintext := plaintext + [plainByte];
        state := XorSpec.NextState(state, ciphertext[i], keyByte);
        i := i + 1;
      }
    }
  }
}
