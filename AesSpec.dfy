/**
 * The simplified AES cipher of aes-chiper.h, as functions of the values it
 * works on: the 16-byte state, the 80-byte key schedule, the padded message.
 * The class in AesCipher.dfy performs the same steps in place and is proved
 * to compute these functions.
 *
 * The cipher is not FIPS-197 AES: it has four rounds, its own key schedule,
 * and it mixes the contiguous groups state[4c .. 4c + 3].
 */
module AesSpec {
  import opened GaloisField
  import opened SBox
  import opened ByteOps

  const BlockSize: nat := 16
  const KeySize: nat := 16
  const NumRounds: nat := 4
  /** Five round keys of sixteen bytes. */
  const ScheduleSize: nat := 80

  /** The cipher state: sixteen bytes, read as four rows of four. */
  type Block = s: seq<bv8> | |s| == BlockSize witness seq(BlockSize, _ => 0)

  /** The expanded key: round key r occupies bytes 16 r .. 16 r + 15. */
  type Schedule = s: seq<bv8> | |s| == ScheduleSize witness seq(ScheduleSize, _ => 0)

  // ---------------------------------------------------------------------------
  // SubBytes
  // ---------------------------------------------------------------------------

  /** Applies the byte substitution `f` to every state byte. */
  function MapBytes(s: Block, f: bv8 -> bv8): Block {
    seq(BlockSize, i requires 0 <= i < BlockSize => f(s[i]))
  }

  /** A substitution with a left inverse gives a state substitution with a left inverse. */
  lemma MapBytesInverse(s: Block, f: bv8 -> bv8, g: bv8 -> bv8)
    requires forall x :: g(f(x)) == x
    ensures MapBytes(MapBytes(s, f), g) == s
  {
    var t := MapBytes(s, f);
    var u := MapBytes(t, g);
    forall i | 0 <= i < BlockSize
      ensures u[i] == s[i]
    {
      assert t[i] == f(s[i]);
    }
  }

  function SubBytes(s: Block): Block {
    MapBytes(s, Sbox)
  }

  function InvSubBytes(s: Block): Block {
    MapBytes(s, InvSbox)
  }

  lemma InvSubBytesSubBytes(s: Block)
    ensures InvSubBytes(SubBytes(s)) == s
  {
    forall x
      ensures InvSbox(Sbox(x)) == x
    {
      InvSboxSbox(x);
    }
    MapBytesInverse(s, Sbox, InvSbox);
  }

  // ---------------------------------------------------------------------------
  // ShiftRows
  // ---------------------------------------------------------------------------

  /** Row r of the state is s[4r .. 4r + 3]; rows 1, 2 and 3 rotate left by 1, 2 and 3 places. */
  function ShiftRows(s: Block): Block {
    [s[0], s[1], s[2], s[3],
     s[5], s[6], s[7], s[4],
     s[10], s[11], s[8], s[9],
     s[15], s[12], s[13], s[14]]
  }

  /** Rows 1, 2 and 3 rotate right by 1, 2 and 3 places. */
  function InvShiftRows(s: Block): Block {
    [s[0], s[1], s[2], s[3],
     s[7], s[4], s[5], s[6],
     s[10], s[11], s[8], s[9],
     s[13], s[14], s[15], s[12]]
  }

  /** A state whose bytes are those of `s` moved as ShiftRows moves them is ShiftRows(s). */
  lemma ShiftRowsBytes(t: seq<bv8>, s: Block)
    requires |t| == BlockSize
    requires t[0] == s[0] && t[1] == s[1] && t[2] == s[2] && t[3] == s[3]
    requires t[4] == s[5] && t[5] == s[6] && t[6] == s[7] && t[7] == s[4]
    requires t[8] == s[10] && t[9] == s[11] && t[10] == s[8] && t[11] == s[9]
    requires t[12] == s[15] && t[13] == s[12] && t[14] == s[13] && t[15] == s[14]
    ensures t == ShiftRows(s)
  {
  }

  /** A state whose bytes are those of `s` moved as InvShiftRows moves them is InvShiftRows(s). */
  lemma InvShiftRowsBytes(t: seq<bv8>, s: Block)
    requires |t| == BlockSize
    requires t[0] == s[0] && t[1] == s[1] && t[2] == s[2] && t[3] == s[3]
    requires t[4] == s[7] && t[5] == s[4] && t[6] == s[5] && t[7] == s[6]
    requires t[8] == s[10] && t[9] == s[11] && t[10] == s[8] && t[11] == s[9]
    requires t[12] == s[13] && t[13] == s[14] && t[14] == s[15] && t[15] == s[12]
    ensures t == InvShiftRows(s)
  {
  }

  /** A row rotated left by k places. */
  function RotateRow(row: seq<bv8>, k: nat): seq<bv8>
    requires k <= |row|
  {
    row[k..] + row[..k]
  }

  /**
   * ShiftRows rotates row r left by r places, so row 0 stays in place;
   * InvShiftRows rotates row r right by r places, that is left by 4 - r.
   */
  lemma ShiftRowsRotatesRows(s: Block)
    ensures ShiftRows(s)[..4] == s[..4]
    ensures ShiftRows(s)[4..8] == RotateRow(s[4..8], 1)
    ensures ShiftRows(s)[8..12] == RotateRow(s[8..12], 2)
    ensures ShiftRows(s)[12..] == RotateRow(s[12..], 3)
    ensures InvShiftRows(s)[..4] == s[..4]
    ensures InvShiftRows(s)[4..8] == RotateRow(s[4..8], 3)
    ensures InvShiftRows(s)[8..12] == RotateRow(s[8..12], 2)
    ensures InvShiftRows(s)[12..] == RotateRow(s[12..], 1)
  {
    assert RotateRow(s[4..8], 1) == [s[5], s[6], s[7], s[4]];
    assert RotateRow(s[8..12], 2) == [s[10], s[11], s[8], s[9]];
    assert RotateRow(s[12..], 3) == [s[15], s[12], s[13], s[14]];
    assert RotateRow(s[4..8], 3) == [s[7], s[4], s[5], s[6]];
    assert RotateRow(s[12..], 1) == [s[13], s[14], s[15], s[12]];
  }

  lemma InvShiftRowsShiftRows(s: Block)
    ensures InvShiftRows(ShiftRows(s)) == s
  {
  }

  lemma ShiftRowsInvShiftRows(s: Block)
    ensures ShiftRows(InvShiftRows(s)) == s
  {
  }

  // ---------------------------------------------------------------------------
  // MixColumns
  // ---------------------------------------------------------------------------

  /** Four bytes: one group of the state. */
  type Quad = s: seq<bv8> | |s| == 4 witness [0, 0, 0, 0]

  /** One group a, b, c, d times the MixColumns matrix: byte k is `MixWord` of the group rotated up by k. */
  function MixGroup(a: bv8, b: bv8, c: bv8, d: bv8): Quad {
    Group(MixWord(a, b, c, d), MixWord(b, c, d, a), MixWord(c, d, a, b), MixWord(d, a, b, c))
  }

  function InvMixGroup(a: bv8, b: bv8, c: bv8, d: bv8): Quad {
    Group(InvMixWord(a, b, c, d), InvMixWord(b, c, d, a), InvMixWord(c, d, a, b), InvMixWord(d, a, b, c))
  }

  function Group(w: bv8, x: bv8, y: bv8, z: bv8): Quad {
    [w, x, y, z]
  }

  lemma InvMixGroupMixGroup(a: bv8, b: bv8, c: bv8, d: bv8)
    ensures var t := MixGroup(a, b, c, d); InvMixGroup(t[0], t[1], t[2], t[3]) == [a, b, c, d]
  {
    InvMixWordMixWord(a, b, c, d);
    InvMixWordMixWord(b, c, d, a);
    InvMixWordMixWord(c, d, a, b);
    InvMixWordMixWord(d, a, b, c);
  }

  /** Applies `f` to each contiguous group s[4c .. 4c + 3] in turn. */
  function MapGroups(s: seq<bv8>, f: (bv8, bv8, bv8, bv8) -> Quad): (r: seq<bv8>)
    requires |s| % 4 == 0
    ensures |r| == |s|
    decreases |s|
  {
    if |s| == 0 then [] else f(s[0], s[1], s[2], s[3]) + MapGroups(s[4..], f)
  }

  /** Groups are transformed independently: one more group adds one more output group. */
  lemma {:induction false} MapGroupsSnoc(s: seq<bv8>, a: bv8, b: bv8, c: bv8, d: bv8, f: (bv8, bv8, bv8, bv8) -> Quad)
    requires |s| % 4 == 0
    ensures MapGroups(s + [a, b, c, d], f) == MapGroups(s, f) + f(a, b, c, d)
    decreases |s|
  {
    if |s| == 0 {
      assert s + [a, b, c, d] == [a, b, c, d];
      assert [a, b, c, d][4..] == [];
    } else {
      assert (s + [a, b, c, d])[4..] == s[4..] + [a, b, c, d];
      MapGroupsSnoc(s[4..], a, b, c, d, f);
    }
  }

  /** A group function with a left inverse gives a state function with a left inverse. */
  lemma {:induction false} MapGroupsInverse(s: seq<bv8>, f: (bv8, bv8, bv8, bv8) -> Quad, g: (bv8, bv8, bv8, bv8) -> Quad)
    requires |s| % 4 == 0
    requires forall a, b, c, d :: var t := f(a, b, c, d); g(t[0], t[1], t[2], t[3]) == [a, b, c, d]
    ensures MapGroups(MapGroups(s, f), g) == s
    decreases |s|
  {
    if |s| > 0 {
      var t := MapGroups(s, f);
      assert t[..4] == f(s[0], s[1], s[2], s[3]);
      assert t[4..] == MapGroups(s[4..], f);
      MapGroupsInverse(s[4..], f, g);
      assert s == [s[0], s[1], s[2], s[3]] + s[4..];
    }
  }

  /** Output group `col` is the image of input group `col` and of nothing else. */
  lemma {:induction false} MapGroupsAt(s: seq<bv8>, f: (bv8, bv8, bv8, bv8) -> Quad, col: nat)
    requires |s| % 4 == 0 && 4 * col + 4 <= |s|
    ensures var r, g := MapGroups(s, f), f(s[4 * col], s[4 * col + 1], s[4 * col + 2], s[4 * col + 3]);
      r[4 * col] == g[0] && r[4 * col + 1] == g[1] && r[4 * col + 2] == g[2] && r[4 * col + 3] == g[3]
    decreases col
  {
    if col > 0 {
      var t := s[4..];
      MapGroupsAt(t, f, col - 1);
      assert t[4 * (col - 1)] == s[4 * col] && t[4 * (col - 1) + 1] == s[4 * col + 1];
      assert t[4 * (col - 1) + 2] == s[4 * col + 2] && t[4 * (col - 1) + 3] == s[4 * col + 3];
    }
  }

  /** The image w, x, y, z of input group `col` is output group `col`. */
  lemma MapGroupsImage(s: seq<bv8>, f: (bv8, bv8, bv8, bv8) -> Quad, col: nat, w: bv8, x: bv8, y: bv8, z: bv8)
    requires |s| % 4 == 0 && 4 * col + 4 <= |s|
    requires [w, x, y, z] == f(s[4 * col], s[4 * col + 1], s[4 * col + 2], s[4 * col + 3])
    ensures var r := MapGroups(s, f); r[4 * col] == w && r[4 * col + 1] == x && r[4 * col + 2] == y && r[4 * col + 3] == z
  {
    MapGroupsAt(s, f, col);
  }

  /** Each contiguous group s[4c .. 4c + 3] is mixed on its own. */
  function MixColumns(s: Block): Block {
    MapGroups(s, MixGroup)
  }

  function InvMixColumns(s: Block): Block {
    MapGroups(s, InvMixGroup)
  }

  lemma InvMixColumnsMixColumns(s: Block)
    ensures InvMixColumns(MixColumns(s)) == s
  {
    forall a, b, c, d
      ensures var t := MixGroup(a, b, c, d); InvMixGroup(t[0], t[1], t[2], t[3]) == [a, b, c, d]
    {
      InvMixGroupMixGroup(a, b, c, d);
    }
    MapGroupsInverse(s, MixGroup, InvMixGroup);
  }

  // ---------------------------------------------------------------------------
  // AddRoundKey
  // ---------------------------------------------------------------------------

  /** Round key `round`: bytes 16 round .. 16 round + 15 of the schedule. */
  function RoundKey(schedule: seq<bv8>, round: nat): Block
    requires BlockSize * (round + 1) <= |schedule|
  {
    schedule[BlockSize * round .. BlockSize * (round + 1)]
  }

  function AddRoundKey(s: Block, key: Block): Block {
    seq(BlockSize, i requires 0 <= i < BlockSize => s[i] ^ key[i])
  }

  /** Adding the same round key twice restores the state. */
  lemma AddRoundKeyTwice(s: Block, key: Block)
    ensures AddRoundKey(AddRoundKey(s, key), key) == s
  {
  }

  // ---------------------------------------------------------------------------
  // Key schedule
  // ---------------------------------------------------------------------------

  /** Round key `round` from the previous one: SBOX[rotl(byte, round)] ^ round, byte by byte. */
  function NextRoundKey(previous: seq<bv8>, round: nat): (next: seq<bv8>)
    requires |previous| == KeySize && 1 <= round <= NumRounds
    ensures |next| == KeySize
  {
    seq(KeySize, i requires 0 <= i < KeySize => Sbox(RotateLeft(previous[i], round as bv8)) ^ (round as bv8))
  }

  /** The key followed by round keys 1 .. n. */
  function ScheduleUpTo(key: seq<bv8>, n: nat): (schedule: seq<bv8>)
    requires |key| == KeySize && n <= NumRounds
    ensures |schedule| == KeySize * (n + 1)
  {
    if n == 0 then key
    else
      var previous := ScheduleUpTo(key, n - 1);
      previous + NextRoundKey(RoundKey(previous, n - 1), n)
  }

  lemma ScheduleUpToStep(key: seq<bv8>, n: nat)
    requires |key| == KeySize && 1 <= n <= NumRounds
    ensures ScheduleUpTo(key, n) == ScheduleUpTo(key, n - 1) + NextRoundKey(RoundKey(ScheduleUpTo(key, n - 1), n - 1), n)
  {
  }

  function KeySchedule(key: seq<bv8>): Schedule
    requires |key| == KeySize
  {
    ScheduleUpTo(key, NumRounds)
  }

  /** Appending a round key to a schedule of m round keys keeps the first m and adds it as key m. */
  lemma RoundKeyAppend(previous: seq<bv8>, next: seq<bv8>, m: nat)
    requires |previous| == BlockSize * m && |next| == BlockSize
    ensures RoundKey(previous + next, m) == next
    ensures forall r: nat :: r < m ==> RoundKey(previous + next, r) == RoundKey(previous, r)
  {
    assert (previous + next)[..|previous|] == previous;
  }

  /** Each round key of a partial schedule is the next one after its predecessor; round key 0 is the key. */
  lemma {:induction false} ScheduleUpToRounds(key: seq<bv8>, n: nat)
    requires |key| == KeySize && n <= NumRounds
    ensures RoundKey(ScheduleUpTo(key, n), 0) == key
    ensures forall r :: 1 <= r <= n ==>
      RoundKey(ScheduleUpTo(key, n), r) == NextRoundKey(RoundKey(ScheduleUpTo(key, n), r - 1), r)
  {
    if n > 0 {
      var previous := ScheduleUpTo(key, n - 1);
      ScheduleUpToRounds(key, n - 1);
      RoundKeyAppend(previous, NextRoundKey(RoundKey(previous, n - 1), n), n);
    }
  }

  /**
   * The schedule holds five round keys: round key 0 is the key, and byte i
   * of round key r >= 1 is SBOX[rotl(byte i of round key r - 1, r)] ^ r.
   */
  lemma KeyScheduleRounds(key: seq<bv8>)
    requires |key| == KeySize
    ensures KeySchedule(key)[..KeySize] == key
    ensures forall r :: 1 <= r <= NumRounds ==>
      RoundKey(KeySchedule(key), r) == NextRoundKey(RoundKey(KeySchedule(key), r - 1), r)
  {
    ScheduleUpToRounds(key, NumRounds);
  }

  // ---------------------------------------------------------------------------
  // One block
  // ---------------------------------------------------------------------------

  /** A main round: SubBytes, ShiftRows, MixColumns, AddRoundKey. */
  function Round(s: Block, key: Block): Block {
    AddRoundKey(MixColumns(ShiftRows(SubBytes(s))), key)
  }

  /** The inverse of a main round: AddRoundKey, InvMixColumns, InvShiftRows, InvSubBytes. */
  function InvRound(s: Block, key: Block): Block {
    InvSubBytes(InvShiftRows(InvMixColumns(AddRoundKey(s, key))))
  }

  /** The last round has no MixColumns. */
  function FinalRound(s: Block, key: Block): Block {
    AddRoundKey(ShiftRows(SubBytes(s)), key)
  }

  function InvFinalRound(s: Block, key: Block): Block {
    InvSubBytes(InvShiftRows(AddRoundKey(s, key)))
  }

  lemma InvRoundRound(s: Block, key: Block)
    ensures InvRound(Round(s, key), key) == s
  {
    var a := SubBytes(s);
    var b := ShiftRows(a);
    AddRoundKeyTwice(MixColumns(b), key);
    InvMixColumnsMixColumns(b);
    InvShiftRowsShiftRows(a);
    InvSubBytesSubBytes(s);
  }

  lemma InvFinalRoundFinalRound(s: Block, key: Block)
    ensures InvFinalRound(FinalRound(s, key), key) == s
  {
    var a := SubBytes(s);
    AddRoundKeyTwice(ShiftRows(a), key);
    InvShiftRowsShiftRows(a);
    InvSubBytesSubBytes(s);
  }

  /** Applies `round` with each key of `keys`, first to last. */
  function ApplyRounds(s: Block, keys: seq<Block>, round: (Block, Block) -> Block): Block
    decreases |keys|
  {
    if |keys| == 0 then s else round(ApplyRounds(s, keys[..|keys| - 1], round), keys[|keys| - 1])
  }

  /** Applies `inverse` with each key of `keys`, last to first. */
  function UndoRounds(s: Block, keys: seq<Block>, inverse: (Block, Block) -> Block): Block
    decreases |keys|
  {
    if |keys| == 0 then s else UndoRounds(inverse(s, keys[|keys| - 1]), keys[..|keys| - 1], inverse)
  }

  /** Undoing the rounds in reverse order with a left inverse of the round gives the start state back. */
  lemma {:induction false} UndoApplyRounds(s: Block, keys: seq<Block>, round: (Block, Block) -> Block, inverse: (Block, Block) -> Block)
    requires forall b, k :: inverse(round(b, k), k) == b
    ensures UndoRounds(ApplyRounds(s, keys, round), keys, inverse) == s
    decreases |keys|
  {
    if |keys| > 0 {
      UndoApplyRounds(s, keys[..|keys| - 1], round, inverse);
    }
  }

  /** Applying the rounds of keys[..n + 1] is applying those of keys[..n], then round n. */
  lemma ApplyRoundsStep(s: Block, keys: seq<Block>, n: nat, round: (Block, Block) -> Block)
    requires n < |keys|
    ensures ApplyRounds(s, keys[..n + 1], round) == round(ApplyRounds(s, keys[..n], round), keys[n])
  {
    assert keys[..n + 1][..n] == keys[..n];
  }

  /** Undoing the rounds of keys[..n + 1] is undoing round n, then those of keys[..n]. */
  lemma UndoRoundsStep(s: Block, keys: seq<Block>, n: nat, inverse: (Block, Block) -> Block)
    requires n < |keys|
    ensures UndoRounds(s, keys[..n + 1], inverse) == UndoRounds(inverse(s, keys[n]), keys[..n], inverse)
  {
    assert keys[..n + 1][..n] == keys[..n];
  }

  /** The keys of main rounds 1 .. NumRounds - 1. */
  function MainRoundKeys(schedule: Schedule): (keys: seq<Block>)
    ensures |keys| == NumRounds - 1
    ensures forall r :: 1 <= r < NumRounds ==> keys[r - 1] == RoundKey(schedule, r)
  {
    [RoundKey(schedule, 1), RoundKey(schedule, 2), RoundKey(schedule, 3)]
  }

  /** Round key 0, main rounds 1 .. 3 with their keys, then the final round with key 4. */
  function EncryptBlock(s: Block, schedule: Schedule): Block {
    var mixed := ApplyRounds(AddRoundKey(s, RoundKey(schedule, 0)), MainRoundKeys(schedule), Round);
    FinalRound(mixed, RoundKey(schedule, NumRounds))
  }

  /** The inverse final round with key 4, inverse main rounds 3 .. 1, then round key 0. */
  function DecryptBlock(s: Block, schedule: Schedule): Block {
    var unmixed := UndoRounds(InvFinalRound(s, RoundKey(schedule, NumRounds)), MainRoundKeys(schedule), InvRound);
    AddRoundKey(unmixed, RoundKey(schedule, 0))
  }

  /** The block round trip for any first key, main-round keys and final key. */
  lemma UndoEncryptionSteps(s: Block, first: Block, keys: seq<Block>, last: Block)
    ensures var mixed := ApplyRounds(AddRoundKey(s, first), keys, Round);
      AddRoundKey(UndoRounds(InvFinalRound(FinalRound(mixed, last), last), keys, InvRound), first) == s
  {
    var start := AddRoundKey(s, first);
    InvFinalRoundFinalRound(ApplyRounds(start, keys, Round), last);
    forall b, k
      ensures InvRound(Round(b, k), k) == b
    {
      InvRoundRound(b, k);
    }
    UndoApplyRounds(start, keys, Round, InvRound);
    AddRoundKeyTwice(s, first);
  }

  /** Decrypting an encrypted block with the same schedule gives the block back. */
  lemma DecryptEncryptBlock(s: Block, schedule: Schedule)
    ensures DecryptBlock(EncryptBlock(s, schedule), schedule) == s
  {
    UndoEncryptionSteps(s, RoundKey(schedule, 0), MainRoundKeys(schedule), RoundKey(schedule, NumRounds));
  }

  // ---------------------------------------------------------------------------
  // Padding (section 6.3 of RFC 5652)
  // ---------------------------------------------------------------------------

  /** The number of padding bytes: 1 .. 16, a whole block when the length is already a multiple of 16. */
  function PadLength(n: nat): nat {
    BlockSize - n % BlockSize
  }

  function Pad(data: seq<bv8>): seq<bv8> {
    var count := PadLength(|data|);
    data + seq(count, _ => count as bv8)
  }

  /**
   * The removal loop reads data[size - i] for i = 1 .. p. It runs off the
   * front of the data only when the last byte p is a valid count larger than
   * the data and every byte of the data equals p.
   */
  predicate ReadsPastStart(data: seq<bv8>) {
    |data| > 0 && 0 < data[|data| - 1] <= 16 && data[|data| - 1] as int > |data| &&
    forall i :: 0 <= i < |data| ==> data[i] == data[|data| - 1]
  }

  /** The padding check succeeds: the last byte p is 1 .. 16 and the last p bytes all equal p. */
  predicate PaddingValid(data: seq<bv8>) {
    |data| > 0 && 0 < data[|data| - 1] <= 16 && data[|data| - 1] as int <= |data| &&
    forall i :: |data| - data[|data| - 1] as int <= i < |data| ==> data[i] == data[|data| - 1]
  }

  function Unpad(data: seq<bv8>): (r: seq<bv8>)
    requires !ReadsPastStart(data)
    ensures PaddingValid(data) ==> r == data[..|data| - data[|data| - 1] as int]
    ensures !PaddingValid(data) ==> r == data
  {
    if |data| == 0 then data
    else
      var count := data[|data| - 1];
      if count > 16 || count == 0 then data
      else if count as int <= |data| && forall i :: |data| - count as int <= i < |data| ==> data[i] == count then
        data[..|data| - count as int]
      else data
  }

  lemma PadShape(data: seq<bv8>)
    ensures |Pad(data)| % BlockSize == 0
    ensures |data| < |Pad(data)| <= |data| + BlockSize
    ensures |Pad(data)| == BlockSize * (|data| / BlockSize + 1)
    ensures Pad(data)[..|data|] == data
    ensures forall i :: |data| <= i < |Pad(data)| ==> Pad(data)[i] as int == |Pad(data)| - |data|
  {
  }

  lemma UnpadPad(data: seq<bv8>)
    ensures !ReadsPastStart(Pad(data))
    ensures Unpad(Pad(data)) == data
  {
    var padded := Pad(data);
    var count := PadLength(|data|);
    PadShape(data);
    assert |padded| == |data| + count;
    assert padded[|padded| - 1] as int == count;
    assert forall i :: |padded| - count <= i < |padded| ==> padded[i] == padded[|padded| - 1];
    assert PaddingValid(padded);
  }

  // ---------------------------------------------------------------------------
  // Messages, block by block (electronic codebook mode)
  // ---------------------------------------------------------------------------

  /** Applies `cipher` to each 16-byte block in turn. */
  function Ecb(s: seq<bv8>, cipher: Block -> Block): (r: seq<bv8>)
    requires |s| % BlockSize == 0
    ensures |r| == |s|
    decreases |s|
  {
    if |s| == 0 then [] else cipher(s[..BlockSize]) + Ecb(s[BlockSize..], cipher)
  }

  /** Blocks are processed independently: the output for x + y is the output for x, then for y. */
  lemma {:induction false} EcbAppend(x: seq<bv8>, y: seq<bv8>, cipher: Block -> Block)
    requires |x| % BlockSize == 0 && |y| % BlockSize == 0
    ensures Ecb(x + y, cipher) == Ecb(x, cipher) + Ecb(y, cipher)
    decreases |x|
  {
    if |x| > 0 {
      assert (x + y)[..BlockSize] == x[..BlockSize];
      assert (x + y)[BlockSize..] == x[BlockSize..] + y;
      EcbAppend(x[BlockSize..], y, cipher);
    } else {
      assert x + y == y;
    }
  }

  /** A block boundary before the end of a whole number of blocks leaves room for one more block. */
  lemma NextBlockFits(i: nat, length: nat)
    requires i % BlockSize == 0 && length % BlockSize == 0 && i < length
    ensures i + BlockSize <= length && (i + BlockSize) % BlockSize == 0
  {
  }

  /** Processing one more block appends that block's image. */
  lemma EcbSnoc(s: seq<bv8>, i: nat, cipher: Block -> Block)
    requires i % BlockSize == 0 && i + BlockSize <= |s|
    ensures Ecb(s[..i + BlockSize], cipher) == Ecb(s[..i], cipher) + cipher(s[i..i + BlockSize])
  {
    var block := s[i..i + BlockSize];
    assert s[..i + BlockSize] == s[..i] + block;
    EcbAppend(s[..i], block, cipher);
    assert block[..BlockSize] == block && block[BlockSize..] == [];
  }

  /** A block function with a left inverse gives a message function with a left inverse. */
  lemma {:induction false} EcbInverse(s: seq<bv8>, cipher: Block -> Block, inverse: Block -> Block)
    requires |s| % BlockSize == 0
    requires forall b: Block :: inverse(cipher(b)) == b
    ensures Ecb(Ecb(s, cipher), inverse) == s
    decreases |s|
  {
    if |s| > 0 {
      var c := Ecb(s, cipher);
      assert c[..BlockSize] == cipher(s[..BlockSize]);
      assert c[BlockSize..] == Ecb(s[BlockSize..], cipher);
      EcbInverse(s[BlockSize..], cipher, inverse);
      assert s == s[..BlockSize] + s[BlockSize..];
    }
  }

  function Encryptor(schedule: Schedule): Block -> Block {
    b => EncryptBlock(b, schedule)
  }

  function Decryptor(schedule: Schedule): Block -> Block {
    b => DecryptBlock(b, schedule)
  }

  /** Empty input gives empty output; otherwise the padded message, block by block. */
  function Encrypt(plaintext: seq<bv8>, schedule: Schedule): seq<bv8> {
    if |plaintext| == 0 then [] else (PadShape(plaintext); Ecb(Pad(plaintext), Encryptor(schedule)))
  }

  /** Empty or ragged input gives empty output; otherwise the blocks are decrypted and unpadded. */
  function Decrypt(ciphertext: seq<bv8>, schedule: Schedule): seq<bv8> {
    if |ciphertext| == 0 || |ciphertext| % BlockSize != 0 then []
    else
      var decrypted := Ecb(ciphertext, Decryptor(schedule));
      WholeBlocksNotPastStart(decrypted);
      Unpad(decrypted)
  }

  /** A non-empty whole number of blocks is never short of its padding count. */
  lemma WholeBlocksNotPastStart(data: seq<bv8>)
    requires |data| > 0 && |data| % BlockSize == 0
    ensures !ReadsPastStart(data)
  {
  }

  /** Decryption with the same schedule recovers every message, the empty one included. */
  lemma DecryptEncrypt(plaintext: seq<bv8>, schedule: Schedule)
    ensures Decrypt(Encrypt(plaintext, schedule), schedule) == plaintext
  {
    if |plaintext| > 0 {
      PadShape(plaintext);
      forall b: Block
        ensures Decryptor(schedule)(Encryptor(schedule)(b)) == b
      {
        DecryptEncryptBlock(b, schedule);
      }
      EcbInverse(Pad(plaintext), Encryptor(schedule), Decryptor(schedule));
      UnpadPad(plaintext);
    }
  }

  // ---------------------------------------------------------------------------
  // Key preparation (the constructor)
  // ---------------------------------------------------------------------------


  /** One DJB2 step on 32-bit unsigned values: hash * 33 + c, wrapping around. */
  function Djb2Step(hash: bv32, c: bv8): bv32 {
    ((hash << 5) + hash) + SignExtend(c)
  }

  /** DJB2 over the key, from 5381. */
  function Djb2(key: seq<bv8>): bv32
    decreases |key|
  {
    if |key| == 0 then 5381 else Djb2Step(Djb2(key[..|key| - 1]), key[|key| - 1])
  }

  /** Byte i (0 = least significant) of a 32-bit hash. */
  function HashByte(hash: bv32, i: nat): bv8
    requires i < 4
  {
    match i
    case 0 => (hash & 0xFF) as bv8
    case 1 => ((hash >> 8) & 0xFF) as bv8
    case 2 => ((hash >> 16) & 0xFF) as bv8
    case _ => ((hash >> 24) & 0xFF) as bv8
  }

  /**
   * The 16-byte key: the first 16 key bytes; when the key is shorter, the
   * missing bytes i < 4 are byte i of the hash, and the missing bytes i >= 4
   * come from `filler` (the shift by 8 i bits is undefined there).
   */
  function PrepareKey(userKey: seq<bv8>, filler: seq<bv8>): (key: seq<bv8>)
    requires |filler| == KeySize
    ensures |key| == KeySize
  {
    var hash := Djb2(userKey);
    seq(KeySize, i requires 0 <= i < KeySize =>
      if i < |userKey| then userKey[i]
      else if i < 4 then HashByte(hash, i)
      else filler[i])
  }

  /** The user key survives as the prefix of the prepared key. */
  lemma PrepareKeyPrefix(userKey: seq<bv8>, filler: seq<bv8>)
    requires |filler| == KeySize
    ensures |userKey| >= KeySize ==> PrepareKey(userKey, filler) == userKey[..KeySize]
    ensures |userKey| < KeySize ==> PrepareKey(userKey, filler)[..|userKey|] == userKey
  {
  }
}
