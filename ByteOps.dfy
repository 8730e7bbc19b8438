/**
 * Byte-level helpers shared by both ciphers: the bit rotations of
 * aes-chiper.h (rotate_left) and xor.h (rotate_left, rotate_right), which
 * shift in a wider integer and keep the low eight bits of the result, and the
 * promotion of a key `char` in the two DJB2-style hashes.
 */
module ByteOps {

  /**
   * Rotates the bits of `value` left by `positions`. The amount is taken
   * modulo 8; rotating by 0 returns the byte unchanged, since the opposite
   * shift by 8 clears every bit.
   */
  function RotateLeft(value: bv8, positions: bv8): bv8 {
    var n := positions % 8;
    (value << n) | (value >> (8 - n))
  }

  /**
   * Rotates the bits of `value` right by `positions`, again modulo 8 and
   * with the same behaviour at 0.
   */
  function RotateRight(value: bv8, positions: bv8): bv8 {
    var n := positions % 8;
    (value >> n) | (value << (8 - n))
  }

  /** Rotating right undoes rotating left by the same amount. */
  lemma RotateRightLeft(value: bv8, positions: bv8)
    ensures RotateRight(RotateLeft(value, positions), positions) == value
  {
  }

  /** Rotating left undoes rotating right by the same amount. */
  lemma RotateLeftRight(value: bv8, positions: bv8)
    ensures RotateLeft(RotateRight(value, positions), positions) == value
  {
  }

  /**
   * A `char` of a key, promoted to a 32-bit unsigned value as the DJB2-style
   * hashes add it: `char` is signed, so bytes 0x80 .. 0xFF are negative and
   * extend with ones.
   */
  function SignExtend(c: bv8): bv32 {
    if c < 0x80 then c as bv32 else (c as bv32) | 0xFFFF_FF00
  }
}
