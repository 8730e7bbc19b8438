/**
 * The byte-level framing of huffman.h: the four-byte big-endian tree
 * length, the padding byte, and the packing of the code bits into bytes,
 * most significant bit first, as compress writes them and decompress
 * reads them back.
 */
module HuffmanBits {
  import opened HuffmanTree

  function Pow2(n: nat): (p: nat)
    ensures p >= 1
  {
    if n == 0 then 1 else 2 * Pow2(n - 1)
  }

  /** The `n` low bits of `value`, most significant first. */
  function BitsOf(value: nat, n: nat): (bits: seq<bool>)
    ensures |bits| == n
  {
    if n == 0 then [] else BitsOf(value / 2, n - 1) + [value % 2 == 1]
  }

  /** The number whose binary digits, most significant first, are `bits`. */
  function ValueOf(bits: seq<bool>): (v: nat)
    ensures v < Pow2(|bits|)
  {
    if |bits| == 0 then 0 else 2 * ValueOf(bits[..|bits| - 1]) + (if bits[|bits| - 1] then 1 else 0)
  }

  /** Reading back the digits of a number gives the digits. */
  lemma {:induction false} BitsOfValueOf(bits: seq<bool>)
    ensures BitsOf(ValueOf(bits), |bits|) == bits
  {
    if |bits| > 0 {
      var init := bits[..|bits| - 1];
      BitsOfValueOf(init);
      var v := ValueOf(bits);
      assert v / 2 == ValueOf(init);
      assert bits == init + [bits[|bits| - 1]];
    }
  }

  /** The digits of a number below 2^n, read back, give the number. */
  lemma {:induction false} ValueOfBitsOf(value: nat, n: nat)
    requires value < Pow2(n)
    ensures ValueOf(BitsOf(value, n)) == value
  {
    if n > 0 {
      var bits := BitsOf(value, n);
      assert bits[..n - 1] == BitsOf(value / 2, n - 1);
      ValueOfBitsOf(value / 2, n - 1);
    }
  }

  /** Bit `j` of a byte counted from the most significant, the bit that the mask 1 << (7 - j) selects. */
  function Bit(b: uint8, j: nat): bool
    requires j < 8
  {
    BitsOf(b as nat, 8)[j]
  }

  /** The first `n` bits of a byte, most significant first. */
  function ByteBits(b: uint8, n: nat): (bits: seq<bool>)
    requires n <= 8
    ensures |bits| == n
    ensures forall j :: 0 <= j < n ==> bits[j] == Bit(b, j)
  {
    BitsOf(b as nat, 8)[..n]
  }

  /** `b |= 1 << (7 - j)`: bit j set, every other bit kept. */
  function SetBit(b: uint8, j: nat): (r: uint8)
    requires j < 8
    ensures BitsOf(r as nat, 8) == BitsOf(b as nat, 8)[j := true]
  {
    var bits := BitsOf(b as nat, 8)[j := true];
    assert Pow2(8) == 0x100;
    BitsOfValueOf(bits);
    ValueOf(bits) as uint8
  }

  /** Zero has no bit set. */
  lemma {:induction false} BitsOfZero(n: nat)
    ensures BitsOf(0, n) == seq(n, _ => false)
  {
    if n > 0 {
      BitsOfZero(n - 1);
    }
  }

  /** Two bytes with the same bits are the same byte. */
  lemma SameBits(a: uint8, b: uint8)
    requires BitsOf(a as nat, 8) == BitsOf(b as nat, 8)
    ensures a == b
  {
    assert Pow2(8) == 0x100;
    ValueOfBitsOf(a as nat, 8);
    ValueOfBitsOf(b as nat, 8);
  }

  /**
   * The byte compress builds from up to eight bits: bit j is set exactly
   * when the j-th bit is a '1', and the bits after the last one are clear.
   */
  function PackByte(chunk: seq<bool>): (b: uint8)
    requires |chunk| <= 8
    ensures forall j :: 0 <= j < 8 ==> Bit(b, j) == (j < |chunk| && chunk[j])
    ensures BitsOf(b as nat, 8) == chunk + seq(8 - |chunk|, _ => false)
  {
    var padded := chunk + seq(8 - |chunk|, _ => false);
    assert Pow2(8) == 0x100;
    BitsOfValueOf(padded);
    ValueOf(padded) as uint8
  }

  /** The payload: the bits eight at a time, the last byte holding what is left. */
  function Pack(bits: seq<bool>): (bytes: seq<uint8>)
    ensures |bytes| == (|bits| + 7) / 8
    decreases |bits|
  {
    if |bits| == 0 then []
    else if |bits| <= 8 then [PackByte(bits)]
    else [PackByte(bits[..8])] + Pack(bits[8..])
  }

  /** The padding byte: the number of unused bits in the last payload byte. */
  function Padding(count: nat): (p: uint8)
    ensures p < 8 && (count + p as nat) % 8 == 0
  {
    ((8 - count % 8) % 8) as uint8
  }

  /** How many bits of the last byte decompress reads: 8 - padding, none when that is negative. */
  function LastCount(padding: uint8): (n: nat)
    ensures n <= 8
  {
    if padding <= 8 then 8 - padding as nat else 0
  }

  /** The bits decompress reads from the payload: all of every byte but the last, the first LastCount bits of the last. */
  function Unpack(payload: seq<uint8>, padding: uint8): (bits: seq<bool>)
    decreases |payload|
  {
    if |payload| == 0 then []
    else if |payload| == 1 then ByteBits(payload[0], LastCount(padding))
    else ByteBits(payload[0], 8) + Unpack(payload[1..], padding)
  }

  /** Eight bits from every payload byte but the last, and 8 - padding from the last: the low `padding` bits are never read. */
  lemma {:induction false} UnpackLength(payload: seq<uint8>, padding: uint8)
    requires |payload| > 0
    ensures |Unpack(payload, padding)| == 8 * (|payload| - 1) + LastCount(padding)
    decreases |payload|
  {
    if |payload| > 1 {
      UnpackLength(payload[1..], padding);
    }
  }

  /** The bits of a packed chunk, read back. */
  lemma ByteBitsPackByte(chunk: seq<bool>)
    requires |chunk| <= 8
    ensures ByteBits(PackByte(chunk), |chunk|) == chunk
  {
  }

  /** More than eight bits: a full first byte, then the rest packed. */
  lemma PackCons(bits: seq<bool>)
    requires |bits| > 8
    ensures Pack(bits) == [PackByte(bits[..8])] + Pack(bits[8..])
  {
  }

  /** More than one payload byte: all eight bits of the first, then the rest. */
  lemma UnpackCons(payload: seq<uint8>, padding: uint8)
    requires |payload| > 1
    ensures Unpack(payload, padding) == ByteBits(payload[0], 8) + Unpack(payload[1..], padding)
  {
  }

  /** Unpacking the payload with the padding compress computed gives back exactly the packed bits. */
  lemma {:induction false} UnpackPack(bits: seq<bool>)
    ensures Unpack(Pack(bits), Padding(|bits|)) == bits
    decreases |bits|
  {
    if 0 < |bits| <= 8 {
      assert LastCount(Padding(|bits|)) == |bits|;
      ByteBitsPackByte(bits);
    } else if |bits| > 8 {
      var head, tail := bits[..8], bits[8..];
      var padding := Padding(|bits|);
      assert Padding(|tail|) == padding;
      UnpackPack(tail);
      PackCons(bits);
      var payload := [PackByte(head)] + Pack(tail);
      assert payload[1..] == Pack(tail);
      UnpackCons(payload, padding);
      ByteBitsPackByte(head);
      assert bits == head + tail;
    }
  }

  /** Every payload byte but the last is full, and the last holds the final |bits| - 8(k-1) bits with its low bits clear. */
  lemma {:induction false} PackLayout(bits: seq<bool>, k: nat, j: nat)
    requires k < |Pack(bits)| && j < 8
    ensures Bit(Pack(bits)[k], j) == (8 * k + j < |bits| && bits[8 * k + j])
    decreases |bits|
  {
    if |bits| <= 8 {
      assert Pack(bits)[k] == PackByte(bits);
    } else {
      PackCons(bits);
      if k == 0 {
        assert Pack(bits)[k] == PackByte(bits[..8]);
      } else {
        PackLayout(bits[8..], k - 1, j);
        assert Pack(bits)[k] == Pack(bits[8..])[k - 1];
        if 8 * k + j < |bits| {
          assert bits[8..][8 * (k - 1) + j] == bits[8 * k + j];
        }
      }
    }
  }

  /** A chunk of clear bits packs into the zero byte. */
  lemma ZeroByte(chunk: seq<bool>)
    requires |chunk| <= 8 && forall j :: 0 <= j < |chunk| ==> !chunk[j]
    ensures PackByte(chunk) == 0
  {
    BitsOfZero(8);
    assert chunk + seq(8 - |chunk|, _ => false) == seq(8, _ => false);
    SameBits(PackByte(chunk), 0);
  }

  /** m clear bits pack into ceil(m / 8) zero bytes. */
  lemma {:induction false} PackZeros(m: nat)
    ensures Pack(seq(m, _ => false)) == seq((m + 7) / 8, _ => 0 as uint8)
    decreases m
  {
    var bits := seq(m, _ => false);
    if 0 < m <= 8 {
      ZeroByte(bits);
    } else if m > 8 {
      PackCons(bits);
      ZeroByte(bits[..8]);
      assert bits[8..] == seq(m - 8, _ => false);
      PackZeros(m - 8);
    }
  }

  /** k zero bytes with padding 0 read back as 8k clear bits. */
  lemma {:induction false} UnpackZeros(k: nat)
    ensures Unpack(seq(k, _ => 0 as uint8), 0) == seq(8 * k, _ => false)
    decreases k
  {
    var payload := seq(k, _ => 0 as uint8);
    if k > 0 {
      BitsOfZero(8);
      assert ByteBits(0, 8) == seq(8, _ => false);
      if k > 1 {
        UnpackCons(payload, 0);
        assert payload[1..] == seq(k - 1, _ => 0 as uint8);
        UnpackZeros(k - 1);
      }
    }
  }

  // ---------------------------------------------------------------------------
  // The tree length field
  // ---------------------------------------------------------------------------

  const TwoTo32: nat := 0x1_0000_0000

  /** A 32-bit unsigned value as four bytes, most significant first. */
  function BigEndian32(n: nat): (bytes: seq<uint8>)
    requires n < TwoTo32
    ensures |bytes| == 4
  {
    [(n / 0x100_0000) as uint8, (n / 0x1_0000 % 0x100) as uint8, (n / 0x100 % 0x100) as uint8, (n % 0x100) as uint8]
  }

  /** The 32-bit unsigned value of the first four bytes, most significant first. */
  function ReadBigEndian32(bytes: seq<uint8>): (n: nat)
    requires |bytes| >= 4
    ensures n < TwoTo32
  {
    bytes[0] as nat * 0x100_0000 + bytes[1] as nat * 0x1_0000 + bytes[2] as nat * 0x100 + bytes[3] as nat
  }

  /** Reading back the four bytes written for a 32-bit value gives the value. */
  lemma ReadBigEndian32Write(n: nat, rest: seq<uint8>)
    requires n < TwoTo32
    ensures ReadBigEndian32(BigEndian32(n) + rest) == n
  {
    var b := BigEndian32(n) + rest;
    var q1 := n / 0x100;
    var q2 := q1 / 0x100;
    var q3 := q2 / 0x100;
    DivideByteTwice(n);
    DivideByteTwice(q1);
    assert n / 0x100_0000 == q3 by {
      DivideByteTwice(n / 0x100);
      assert n / 0x1_0000 / 0x100 == n / 0x100_0000;
    }
    assert b[0] as nat == q3 && b[1] as nat == q2 % 0x100;
    assert b[2] as nat == q1 % 0x100 && b[3] as nat == n % 0x100;
  }

  /** Dropping the low byte twice drops the low two bytes. */
  lemma DivideByteTwice(n: nat)
    ensures n / 0x100 / 0x100 == n / 0x1_0000
    ensures n / 0x1_0000 / 0x100 == n / 0x100_0000
  {
  }
}
