/**
 * The AESCipher class of aes-chiper.h: a key schedule fixed by the
 * constructor, and the block steps working in place on a 16-byte state
 * array. Each method is proved to compute the matching function of AesSpec,
 * whose inverse and round-trip lemmas then carry over to the class.
 */
module AesCipher {
  import opened GaloisField
  import opened SBox
  import opened ByteOps
  import AesSpec

  class AESCipher {
    /** The prepared key followed by round keys 1 .. 4. */
    var keySchedule: seq<bv8>

    ghost predicate Valid()
      reads this
    {
      |keySchedule| == AesSpec.ScheduleSize
    }

    /**
     * Prepares a 16-byte key from `userKey` and expands it. Key bytes past
     * the user key are hash bytes 0 .. 3 and, from byte 4 on, the bytes of
     * `filler`: the C++ shift by 8 i bits is undefined there.
     */
    constructor (userKey: seq<bv8>, filler: seq<bv8>)
      requires |filler| == AesSpec.KeySize
      ensures Valid()
      ensures keySchedule == AesSpec.KeySchedule(AesSpec.PrepareKey(userKey, filler))
    {
      var key := PrepareKey(userKey, filler);
      keySchedule := [];
      new;
      ExpandKey(key);
    }

    /** The key bytes the constructor copies and derives before expanding them. */
    static method PrepareKey(userKey: seq<bv8>, filler: seq<bv8>) returns (key: seq<bv8>)
      requires |filler| == AesSpec.KeySize
      ensures key == AesSpec.PrepareKey(userKey, filler)
    {
      key := seq(AesSpec.KeySize, _ => 0);
      var i := 0;
      while i < |userKey| && i < AesSpec.KeySize
        invariant 0 <= i <= AesSpec.KeySize && i <= |userKey|
        invariant |key| == AesSpec.KeySize
        invariant forall m :: 0 <= m < i ==> key[m] == userKey[m]
      {
        key := key[i := userKey[i]];
        i := i + 1;
      }
      if |userKey| < AesSpec.KeySize {
        var hash := HashKey(userKey);
        var k := |userKey|;
        while k < AesSpec.KeySize
          invariant |userKey| <= k <= AesSpec.KeySize
          invariant |key| == AesSpec.KeySize
          invariant forall m :: 0 <= m < |userKey| ==> key[m] == userKey[m]
          invariant forall m :: |userKey| <= m < k ==>
            key[m] == (if m < 4 then AesSpec.HashByte(hash, m) else filler[m])
        {
          key := key[k := if k < 4 then AesSpec.HashByte(hash, k) else filler[k]];
          k := k + 1;
        }
      }
    }

    /** DJB2 over the user key, as the constructor computes it. */
    static method HashKey(userKey: seq<bv8>) returns (hash: bv32)
      ensures hash == AesSpec.Djb2(userKey)
    {
      hash := 5381;
      var j := 0;
      while j < |userKey|
        invariant 0 <= j <= |userKey|
        invariant hash == AesSpec.Djb2(userKey[..j])
      {
        assert userKey[..j + 1][..j] == userKey[..j];
        hash := AesSpec.Djb2Step(hash, userKey[j]);
        j := j + 1;
      }
      assert userKey[..j] == userKey;
    }

    /** Replaces the schedule by the key followed by round keys 1 .. 4. */
    method ExpandKey(key: seq<bv8>)
      requires |key| == AesSpec.KeySize
      modifies this
      ensures Valid()
      ensures keySchedule == AesSpec.KeySchedule(key)
    {
      keySchedule := key;
      var round := 1;
      while round <= AesSpec.NumRounds
        invariant 1 <= round <= AesSpec.NumRounds + 1
        invariant keySchedule == AesSpec.ScheduleUpTo(key, round - 1)
      {
        var previous := keySchedule[(round - 1) * AesSpec.KeySize .. round * AesSpec.KeySize];
        assert previous == AesSpec.RoundKey(keySchedule, round - 1);
        var roundKey := NextRoundKey(previous, round);
        AesSpec.ScheduleUpToStep(key, round);
        keySchedule := keySchedule + roundKey;
        round := round + 1;
      }
    }

    /** Round key `round` from a copy of the previous one, byte by byte. */
    static method NextRoundKey(previous: seq<bv8>, round: nat) returns (roundKey: seq<bv8>)
      requires |previous| == AesSpec.KeySize && 1 <= round <= AesSpec.NumRounds
      ensures roundKey == AesSpec.NextRoundKey(previous, round)
    {
      roundKey := previous;
      ghost var next := AesSpec.NextRoundKey(previous, round);
      var i := 0;
      while i < AesSpec.KeySize
        invariant 0 <= i <= AesSpec.KeySize
        invariant |roundKey| == AesSpec.KeySize
        invariant forall m :: 0 <= m < i ==> roundKey[m] == next[m]
        invariant forall m :: i <= m < AesSpec.KeySize ==> roundKey[m] == previous[m]
      {
        assert roundKey[i] == previous[i];
        var b := Sbox(RotateLeft(roundKey[i], round as bv8)) ^ (round as bv8);
        assert b == next[i];
        roundKey := roundKey[i := b];
        i := i + 1;
      }
    }

    /** Replaces every state byte by its S-box image. */
    static method SubBytes(state: array<bv8>)
      requires state.Length == AesSpec.BlockSize
      modifies state
      ensures state[..] == AesSpec.SubBytes(old(state[..]))
    {
      SubstituteBytes(state, Sbox);
    }

    /** Replaces every state byte by its inverse S-box image. */
    static method InvSubBytes(state: array<bv8>)
      requires state.Length == AesSpec.BlockSize
      modifies state
      ensures state[..] == AesSpec.InvSubBytes(old(state[..]))
    {
      SubstituteBytes(state, InvSbox);
    }

    /** The table lookup loop shared by SubBytes and InvSubBytes. */
    static method SubstituteBytes(state: array<bv8>, table: bv8 -> bv8)
      requires state.Length == AesSpec.BlockSize
      modifies state
      ensures state[..] == AesSpec.MapBytes(old(state[..]), table)
    {
      var i := 0;
      while i < AesSpec.BlockSize
        invariant 0 <= i <= AesSpec.BlockSize
        invariant forall m :: 0 <= m < i ==> state[m] == table(old(state[m]))
        invariant forall m :: i <= m < AesSpec.BlockSize ==> state[m] == old(state[m])
      {
        state[i] := table(state[i]);
        i := i + 1;
      }
    }

    /** Rotates row 1 left by one place, swaps the halves of row 2 and rotates row 3 right by one place. */
    static method ShiftRows(state: array<bv8>)
      requires state.Length == AesSpec.BlockSize
      modifies state
      ensures state[..] == AesSpec.ShiftRows(old(state[..]))
    {
      RotateRowLeft(state, 4);
      SwapRowHalves(state, 8);
      RotateRowRight(state, 12);
      AesSpec.ShiftRowsBytes(state[..], old(state[..]));
    }

    /** Rotates row 1 right by one place, swaps the halves of row 2 and rotates row 3 left by one place. */
    static method InvShiftRows(state: array<bv8>)
      requires state.Length == AesSpec.BlockSize
      modifies state
      ensures state[..] == AesSpec.InvShiftRows(old(state[..]))
    {
      RotateRowRight(state, 4);
      SwapRowHalves(state, 8);
      RotateRowLeft(state, 12);
      AesSpec.InvShiftRowsBytes(state[..], old(state[..]));
    }

    /** The four-assignment rotation of the row at `base` one place to the left, through `temp`. */
    static method RotateRowLeft(state: array<bv8>, base: nat)
      requires base + 4 <= state.Length
      modifies state
      ensures state[base] == old(state[base + 1]) && state[base + 1] == old(state[base + 2])
      ensures state[base + 2] == old(state[base + 3]) && state[base + 3] == old(state[base])
      ensures forall k :: 0 <= k < state.Length && !(base <= k < base + 4) ==> state[k] == old(state[k])
    {
      var temp := state[base];
      state[base] := state[base + 1];
      state[base + 1] := state[base + 2];
      state[base + 2] := state[base + 3];
      state[base + 3] := temp;
    }

    /** The four-assignment rotation of the row at `base` one place to the right, through `temp`. */
    static method RotateRowRight(state: array<bv8>, base: nat)
      requires base + 4 <= state.Length
      modifies state
      ensures state[base] == old(state[base + 3]) && state[base + 1] == old(state[base])
      ensures state[base + 2] == old(state[base + 1]) && state[base + 3] == old(state[base + 2])
      ensures forall k :: 0 <= k < state.Length && !(base <= k < base + 4) ==> state[k] == old(state[k])
    {
      var temp := state[base + 3];
      state[base + 3] := state[base + 2];
      state[base + 2] := state[base + 1];
      state[base + 1] := state[base];
      state[base] := temp;
    }

    /** The two swaps that rotate the row at `base` by two places. */
    static method SwapRowHalves(state: array<bv8>, base: nat)
      requires base + 4 <= state.Length
      modifies state
      ensures state[base] == old(state[base + 2]) && state[base + 1] == old(state[base + 3])
      ensures state[base + 2] == old(state[base]) && state[base + 3] == old(state[base + 1])
      ensures forall k :: 0 <= k < state.Length && !(base <= k < base + 4) ==> state[k] == old(state[k])
    {
      var temp := state[base];
      state[base] := state[base + 2];
      state[base + 2] := temp;
      temp := state[base + 1];
      state[base + 1] := state[base + 3];
      state[base + 3] := temp;
    }

    /** Mixes each group state[4 col .. 4 col + 3] with the MixColumns matrix. */
    static method MixColumns(state: array<bv8>)
      requires state.Length == AesSpec.BlockSize
      modifies state
      ensures state[..] == AesSpec.MixColumns(old(state[..]))
    {
      MapGroupsInPlace(state, AesSpec.MixGroup);
    }

    /** Mixes each group state[4 col .. 4 col + 3] with the InvMixColumns matrix. */
    static method InvMixColumns(state: array<bv8>)
      requires state.Length == AesSpec.BlockSize
      modifies state
      ensures state[..] == AesSpec.InvMixColumns(old(state[..]))
    {
      MapGroupsInPlace(state, AesSpec.InvMixGroup);
    }

    /** The column loop shared by mix_columns and inv_mix_columns: group `col` is replaced by its image under `f`. */
    static method MapGroupsInPlace(state: array<bv8>, f: (bv8, bv8, bv8, bv8) -> AesSpec.Quad)
      requires state.Length == AesSpec.BlockSize
      modifies state
      ensures state[..] == AesSpec.MapGroups(old(state[..]), f)
    {
      ghost var original := state[..];
      ghost var target := AesSpec.MapGroups(original, f);
      var col := 0;
      while col < 4
        invariant 0 <= col <= 4
        invariant forall m :: 0 <= m < 4 * col ==> state[m] == target[m]
        invariant forall m :: 4 * col <= m < AesSpec.BlockSize ==> state[m] == original[m]
      {
        var base := col * 4;
        var g := f(state[base], state[base + 1], state[base + 2], state[base + 3]);
        AesSpec.MapGroupsImage(original, f, col, g[0], g[1], g[2], g[3]);
        StoreGroup(state, base, g[0], g[1], g[2], g[3]);
        col := col + 1;
      }
    }

    /** Writes w, x, y, z into the group state[base .. base + 3], leaving the rest of the state alone. */
    static method StoreGroup(state: array<bv8>, base: nat, w: bv8, x: bv8, y: bv8, z: bv8)
      requires base + 4 <= state.Length
      modifies state
      ensures state[base] == w && state[base + 1] == x && state[base + 2] == y && state[base + 3] == z
      ensures forall k :: 0 <= k < state.Length && !(base <= k < base + 4) ==> state[k] == old(state[k])
    {
      state[base], state[base + 1], state[base + 2], state[base + 3] := w, x, y, z;
    }

    /** XORs round key `round` of the schedule into the state. */
    method AddRoundKey(state: array<bv8>, round: nat)
      requires Valid() && state.Length == AesSpec.BlockSize && round <= AesSpec.NumRounds
      modifies state
      ensures state[..] == AesSpec.AddRoundKey(old(state[..]), AesSpec.RoundKey(keySchedule, round))
    {
      var offset := round * AesSpec.BlockSize;
      ghost var key := AesSpec.RoundKey(keySchedule, round);
      var i := 0;
      while i < AesSpec.BlockSize
        invariant 0 <= i <= AesSpec.BlockSize
        invariant forall m :: 0 <= m < i ==> state[m] == old(state[m]) ^ key[m]
        invariant forall m :: i <= m < AesSpec.BlockSize ==> state[m] == old(state[m])
      {
        assert keySchedule[offset + i] == key[i];
        state[i] := state[i] ^ keySchedule[offset + i];
        i := i + 1;
      }
    }

    /** encrypt_block: round key 0, main rounds 1 .. 3, then the final round without MixColumns. */
    method EncryptBlock(block: array<bv8>)
      requires Valid() && block.Length == AesSpec.BlockSize
      modifies block
      ensures block[..] == AesSpec.EncryptBlock(old(block[..]), keySchedule)
    {
      AddRoundKey(block, 0);
      MainRounds(block);
      FinalRound(block);
    }

    /** The main-round loop of encrypt_block: rounds 1 .. 3 in order. */
    method MainRounds(block: array<bv8>)
      requires Valid() && block.Length == AesSpec.BlockSize
      modifies block
      ensures block[..] == AesSpec.ApplyRounds(old(block[..]), AesSpec.MainRoundKeys(keySchedule), AesSpec.Round)
    {
      ghost var start := block[..];
      ghost var keys := AesSpec.MainRoundKeys(keySchedule);
      var round := 1;
      while round < AesSpec.NumRounds
        invariant 1 <= round <= AesSpec.NumRounds
        invariant block[..] == AesSpec.ApplyRounds(start, keys[..round - 1], AesSpec.Round)
      {
        assert keys[round - 1] == AesSpec.RoundKey(keySchedule, round);
        AesSpec.ApplyRoundsStep(start, keys, round - 1, AesSpec.Round);
        MainRound(block, round);
        round := round + 1;
      }
      assert keys[..AesSpec.NumRounds - 1] == keys;
    }

    /** decrypt_block: the steps of encrypt_block inverted, in reverse order. */
    method DecryptBlock(block: array<bv8>)
      requires Valid() && block.Length == AesSpec.BlockSize
      modifies block
      ensures block[..] == AesSpec.DecryptBlock(old(block[..]), keySchedule)
    {
      InvFinalRound(block);
      InvMainRounds(block);
      AddRoundKey(block, 0);
    }

    /** The inverse main-round loop of decrypt_block: rounds 3 .. 1, last first. */
    method InvMainRounds(block: array<bv8>)
      requires Valid() && block.Length == AesSpec.BlockSize
      modifies block
      ensures AesSpec.UndoRounds(old(block[..]), AesSpec.MainRoundKeys(keySchedule), AesSpec.InvRound) == block[..]
    {
      ghost var keys := AesSpec.MainRoundKeys(keySchedule);
      ghost var unmixed := AesSpec.UndoRounds(block[..], keys, AesSpec.InvRound);
      assert keys[..AesSpec.NumRounds - 1] == keys;
      var round := AesSpec.NumRounds - 1;
      while round >= 1
        invariant 0 <= round <= AesSpec.NumRounds - 1
        invariant AesSpec.UndoRounds(block[..], keys[..round], AesSpec.InvRound) == unmixed
      {
        assert keys[round - 1] == AesSpec.RoundKey(keySchedule, round);
        AesSpec.UndoRoundsStep(block[..], keys, round - 1, AesSpec.InvRound);
        InvMainRound(block, round);
        round := round - 1;
      }
    }

    /** The last round of encrypt_block: SubBytes, ShiftRows, then the last round key. */
    method FinalRound(block: array<bv8>)
      requires Valid() && block.Length == AesSpec.BlockSize
      modifies block
      ensures block[..] == AesSpec.FinalRound(old(block[..]), AesSpec.RoundKey(keySchedule, AesSpec.NumRounds))
    {
      SubBytes(block);
      ShiftRows(block);
      AddRoundKey(block, AesSpec.NumRounds);
    }

    /** The first steps of decrypt_block: the last round key, InvShiftRows, InvSubBytes. */
    method InvFinalRound(block: array<bv8>)
      requires Valid() && block.Length == AesSpec.BlockSize
      modifies block
      ensures block[..] == AesSpec.InvFinalRound(old(block[..]), AesSpec.RoundKey(keySchedule, AesSpec.NumRounds))
    {
      AddRoundKey(block, AesSpec.NumRounds);
      InvShiftRows(block);
      InvSubBytes(block);
    }

    /** One main round of encrypt_block: SubBytes, ShiftRows, MixColumns, then round key `round`. */
    method MainRound(block: array<bv8>, round: nat)
      requires Valid() && block.Length == AesSpec.BlockSize && round <= AesSpec.NumRounds
      modifies block
      ensures block[..] == AesSpec.Round(old(block[..]), AesSpec.RoundKey(keySchedule, round))
    {
      SubBytes(block);
      ShiftRows(block);
      MixColumns(block);
      AddRoundKey(block, round);
    }

    /** One main round of decrypt_block: round key `round`, InvMixColumns, InvShiftRows, InvSubBytes. */
    method InvMainRound(block: array<bv8>, round: nat)
      requires Valid() && block.Length == AesSpec.BlockSize && round <= AesSpec.NumRounds
      modifies block
      ensures block[..] == AesSpec.InvRound(old(block[..]), AesSpec.RoundKey(keySchedule, round))
    {
      AddRoundKey(block, round);
      InvMixColumns(block);
      InvShiftRows(block);
      InvSubBytes(block);
    }

    /** add_padding: appends PadLength(|data|) copies of that count. */
    static method AddPadding(data: seq<bv8>) returns (padded: seq<bv8>)
      ensures padded == AesSpec.Pad(data)
    {
      padded := data;
      var count := AesSpec.BlockSize - |data| % AesSpec.BlockSize;
      var i := 0;
      while i < count
        invariant 0 <= i <= count
        invariant padded == data + seq(i, _ => count as bv8)
      {
        padded := padded + [count as bv8];
        i := i + 1;
      }
    }

    /**
     * remove_padding: the data unchanged when it is empty, when its last byte p
     * is 0 or above 16, or when one of its last p bytes differs from p; else the
     * data without its last p bytes.
     */
    static method RemovePadding(data: seq<bv8>) returns (unpadded: seq<bv8>)
      requires !AesSpec.ReadsPastStart(data)
      ensures unpadded == AesSpec.Unpad(data)
    {
      if |data| == 0 {
        return data;
      }
      var count := data[|data| - 1];
      if count > 16 || count == 0 {
        return data;
      }
      var i := 1;
      while i <= count as int
        invariant 1 <= i <= count as int + 1
        invariant i - 1 <= |data|
        invariant forall j :: |data| - (i - 1) <= j < |data| ==> data[j] == count
      {
        assert i <= |data|;
        if data[|data| - i] != count {
          return data;
        }
        i := i + 1;
      }
      unpadded := data[..|data| - count as int];
    }

    /** encrypt: empty for an empty plaintext, otherwise the padded plaintext encrypted block by block. */
    method Encrypt(plaintext: seq<bv8>) returns (ciphertext: seq<bv8>)
      requires Valid()
      ensures ciphertext == AesSpec.Encrypt(plaintext, keySchedule)
    {
      if |plaintext| == 0 {
        return [];
      }
      var padded := AddPadding(plaintext);
      AesSpec.PadShape(plaintext);
      ciphertext := EncryptBlocks(padded, AesSpec.Encryptor(keySchedule));
    }

    /** decrypt: empty for an empty or ragged ciphertext, otherwise the blocks decrypted, then unpadded. */
    method Decrypt(ciphertext: seq<bv8>) returns (plaintext: seq<bv8>)
      requires Valid()
      ensures plaintext == AesSpec.Decrypt(ciphertext, keySchedule)
    {
      if |ciphertext| == 0 || |ciphertext| % AesSpec.BlockSize != 0 {
        return [];
      }
      var decrypted := DecryptBlocks(ciphertext, AesSpec.Decryptor(keySchedule));
      AesSpec.WholeBlocksNotPastStart(decrypted);
      plaintext := RemovePadding(decrypted);
    }

    /**
     * The block loop of encrypt: each 16-byte block of `data` encrypted on its own,
     * in order. `cipher` names EncryptBlock on the key schedule for the proof.
     */
    method EncryptBlocks(data: seq<bv8>, ghost cipher: AesSpec.Block -> AesSpec.Block) returns (output: seq<bv8>)
      requires Valid() && |data| % AesSpec.BlockSize == 0
      requires forall b: AesSpec.Block {:trigger AesSpec.EncryptBlock(b, keySchedule)} :: cipher(b) == AesSpec.EncryptBlock(b, keySchedule)
      ensures output == AesSpec.Ecb(data, cipher)
    {
      output := [];
      var i := 0;
      while i < |data|
        invariant i <= |data| && i % AesSpec.BlockSize == 0
        invariant output == AesSpec.Ecb(data[..i], cipher)
      {
        AesSpec.NextBlockFits(i, |data|);
        output := EncryptBlockOnto(output, data, i, cipher);
        AesSpec.EcbSnoc(data, i, cipher);
        i := i + AesSpec.BlockSize;
      }
      assert data[..i] == data;
    }

    /**
     * The block loop of decrypt: each 16-byte block of `data` decrypted on its own,
     * in order. `cipher` names DecryptBlock on the key schedule for the proof.
     */
    method DecryptBlocks(data: seq<bv8>, ghost cipher: AesSpec.Block -> AesSpec.Block) returns (output: seq<bv8>)
      requires Valid() && |data| % AesSpec.BlockSize == 0
      requires forall b: AesSpec.Block {:trigger AesSpec.DecryptBlock(b, keySchedule)} :: cipher(b) == AesSpec.DecryptBlock(b, keySchedule)
      ensures output == AesSpec.Ecb(data, cipher)
    {
      output := [];
      var i := 0;
      while i < |data|
        invariant i <= |data| && i % AesSpec.BlockSize == 0
        invariant output == AesSpec.Ecb(data[..i], cipher)
      {
        AesSpec.NextBlockFits(i, |data|);
        output := DecryptBlockOnto(output, data, i, cipher);
        AesSpec.EcbSnoc(data, i, cipher);
        i := i + AesSpec.BlockSize;
      }
      assert data[..i] == data;
    }

    /** One pass of the encrypt loop: copy block `offset` of `data`, encrypt it, push its bytes onto `output`. */
    method EncryptBlockOnto(output: seq<bv8>, data: seq<bv8>, offset: nat, ghost cipher: AesSpec.Block -> AesSpec.Block) returns (extended: seq<bv8>)
      requires Valid() && offset + AesSpec.BlockSize <= |data|
      requires forall b: AesSpec.Block {:trigger AesSpec.EncryptBlock(b, keySchedule)} :: cipher(b) == AesSpec.EncryptBlock(b, keySchedule)
      ensures extended == output + cipher(data[offset..offset + AesSpec.BlockSize])
    {
      var block := CopyBlock(data, offset);
      EncryptBlock(block);
      extended := AppendBlock(output, block);
    }

    /** One pass of the decrypt loop: copy block `offset` of `data`, decrypt it, push its bytes onto `output`. */
    method DecryptBlockOnto(output: seq<bv8>, data: seq<bv8>, offset: nat, ghost cipher: AesSpec.Block -> AesSpec.Block) returns (extended: seq<bv8>)
      requires Valid() && offset + AesSpec.BlockSize <= |data|
      requires forall b: AesSpec.Block {:trigger AesSpec.DecryptBlock(b, keySchedule)} :: cipher(b) == AesSpec.DecryptBlock(b, keySchedule)
      ensures extended == output + cipher(data[offset..offset + AesSpec.BlockSize])
    {
      var block := CopyBlock(data, offset);
      DecryptBlock(block);
      extended := AppendBlock(output, block);
    }

    /** Copies the 16 bytes data[offset .. offset + 15] into a new block. */
    static method CopyBlock(data: seq<bv8>, offset: nat) returns (block: array<bv8>)
      requires offset + AesSpec.BlockSize <= |data|
      ensures fresh(block) && block.Length == AesSpec.BlockSize
      ensures block[..] == data[offset..offset + AesSpec.BlockSize]
    {
      block := new bv8[AesSpec.BlockSize];
      var j := 0;
      while j < AesSpec.BlockSize
        invariant 0 <= j <= AesSpec.BlockSize
        invariant forall m :: 0 <= m < j ==> block[m] == data[offset + m]
      {
        block[j] := data[offset + j];
        j := j + 1;
      }
    }

    /** Pushes the bytes of a block onto the end of `output`, one at a time. */
    static method AppendBlock(output: seq<bv8>, block: array<bv8>) returns (extended: seq<bv8>)
      ensures extended == output + block[..]
    {
      extended := output;
      var j := 0;
      while j < block.Length
        invariant 0 <= j <= block.Length
        invariant extended == output + block[..j]
      {
        extended := extended + [block[j]];
        assert block[..j + 1] == block[..j] + [block[j]];
        j := j + 1;
      }
    }
  }
}
