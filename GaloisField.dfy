/**
 * Arithmetic in GF(2^8) with the reduction polynomial x^8 + x^4 + x^3 + x + 1,
 * as used by the simplified AES cipher (galois_multiply in aes-chiper.h).
 * Bytes are `bv8`; addition in the field is bytewise exclusive or.
 */
module GaloisField {

  /** Field addition. Kept as a named function so that sums keep their shape in proofs. */
  function Add(x: bv8, y: bv8): bv8 {
    x ^ y
  }

  /** Multiplication by x: shift left and reduce by 0x1B when the top bit falls out. */
  function XTime(a: bv8): bv8 {
    (a << 1) ^ ((a >> 7) * 0x1B)
  }

  /**
   * Shift-and-add multiplication: add `a` when the low bit of `b` is set,
   * then continue with `XTime(a)` and the remaining bits `b >> 1`.
   */
  function ShiftAdd(a: bv8, b: bv8): bv8
    decreases b
  {
    if b == 0 then 0 else (if b & 1 != 0 then a else 0) ^ ShiftAdd(XTime(a), b >> 1)
  }

  /**
   * The product a * b in GF(2^8). Defined through `ShiftAdd`; every property
   * below is stated in terms of `Mul`, so proofs see one non-recursive symbol.
   */
  function Mul(a: bv8, b: bv8): bv8 {
    ShiftAdd(a, b)
  }

  /**
   * Section 4.2.1 of FIPS-197: a * b is the sum of xtime^k(a) over the bits k
   * that are set in b. An independent definition of the same product.
   */
  function XTimeSum(a: bv8, b: bv8): bv8 {
    (if b & 0x01 != 0 then a else 0) ^
    (if b & 0x02 != 0 then XTime(a) else 0) ^
    (if b & 0x04 != 0 then XTime(XTime(a)) else 0) ^
    (if b & 0x08 != 0 then XTime(XTime(XTime(a))) else 0) ^
    (if b & 0x10 != 0 then XTime(XTime(XTime(XTime(a)))) else 0) ^
    (if b & 0x20 != 0 then XTime(XTime(XTime(XTime(XTime(a))))) else 0) ^
    (if b & 0x40 != 0 then XTime(XTime(XTime(XTime(XTime(XTime(a)))))) else 0) ^
    (if b & 0x80 != 0 then XTime(XTime(XTime(XTime(XTime(XTime(XTime(a))))))) else 0)
  }

  // ---------------------------------------------------------------------------
  // The shift-and-add recurrence
  // ---------------------------------------------------------------------------

  lemma MulOdd(a: bv8, b: bv8)
    requires b & 1 != 0
    ensures Mul(a, b) == a ^ Mul(XTime(a), b >> 1)
  {
  }

  lemma MulEven(a: bv8, b: bv8)
    requires b & 1 == 0
    ensures Mul(a, b) == Mul(XTime(a), b >> 1)
  {
    if b == 0 {
      assert b >> 1 == 0;
    }
  }

  lemma MulByZero(a: bv8)
    ensures Mul(a, 0) == 0
  {
  }

  lemma MulStep(a: bv8, b: bv8)
    ensures Mul(a, b) == Add(if b & 1 != 0 then a else 0, Mul(XTime(a), b >> 1))
  {
    if b & 1 != 0 {
      MulOdd(a, b);
    } else {
      MulEven(a, b);
    }
  }

  /** The closed form obeys the same recurrence: bit k + 1 of b is bit k of b >> 1. */
  lemma XTimeSumBits(a: bv8, b: bv8)
    ensures XTimeSum(a, b) == (if b & 1 != 0 then a else 0) ^ XTimeSum(XTime(a), b >> 1)
  {
    var h := b >> 1;
    assert (h & 0x01 != 0) == (b & 0x02 != 0);
    assert (h & 0x02 != 0) == (b & 0x04 != 0);
    assert (h & 0x04 != 0) == (b & 0x08 != 0);
    assert (h & 0x08 != 0) == (b & 0x10 != 0);
    assert (h & 0x10 != 0) == (b & 0x20 != 0);
    assert (h & 0x20 != 0) == (b & 0x40 != 0);
    assert (h & 0x40 != 0) == (b & 0x80 != 0);
    assert h & 0x80 == 0;
  }

  lemma XTimeSumStep(a: bv8, b: bv8)
    ensures XTimeSum(a, b) == Add(if b & 1 != 0 then a else 0, XTimeSum(XTime(a), b >> 1))
  {
    XTimeSumBits(a, b);
  }

  /** The shift-and-add product is the FIPS-197 product. */
  lemma {:induction false} MulIsXTimeSum(a: bv8, b: bv8)
    decreases b
    ensures Mul(a, b) == XTimeSum(a, b)
  {
    if b == 0 {
      MulByZero(a);
    } else {
      MulIsXTimeSum(XTime(a), b >> 1);
      XTimeSumStep(a, b);
      MulStep(a, b);
    }
  }

  // ---------------------------------------------------------------------------
  // galois_multiply
  // ---------------------------------------------------------------------------

  lemma DoubleHigh(a: bv8)
    requires a & 0x80 != 0
    ensures (a << 1) ^ 0x1B == XTime(a)
  {
  }

  lemma DoubleLow(a: bv8)
    requires a & 0x80 == 0
    ensures a << 1 == XTime(a)
  {
  }

  /** One loop iteration keeps "result + a * b" equal to the product sought. */
  lemma Maintain(r: bv8, a: bv8, b: bv8, r0: bv8, a0: bv8, b0: bv8, x: bv8, y: bv8)
    requires r0 ^ Mul(a0, b0) == Mul(x, y)
    requires r == (if b0 & 1 != 0 then r0 ^ a0 else r0)
    requires a == XTime(a0) && b == b0 >> 1
    ensures r ^ Mul(a, b) == Mul(x, y)
  {
    if b0 & 1 != 0 {
      MulOdd(a0, b0);
    } else {
      MulEven(a0, b0);
    }
  }

  /** b shifted right by one bit, n times. */
  ghost function Halve(b: bv8, n: nat): bv8 {
    if n == 0 then b else Halve(b, n - 1) >> 1
  }

  lemma HalveStep(b: bv8, n: nat, h: bv8, h1: bv8)
    requires h == Halve(b, n) && h1 == h >> 1
    ensures h1 == Halve(b, n + 1)
  {
  }

  lemma HalveEight(b: bv8)
    ensures Halve(b, 8) == 0
  {
    assert Halve(b, 1) == b >> 1;
    assert Halve(b, 2) == Halve(b, 1) >> 1;
    assert Halve(b, 3) == Halve(b, 2) >> 1;
    assert Halve(b, 4) == Halve(b, 3) >> 1;
    assert Halve(b, 5) == Halve(b, 4) >> 1;
    assert Halve(b, 6) == Halve(b, 5) >> 1;
    assert Halve(b, 7) == Halve(b, 6) >> 1;
    assert Halve(b, 8) == Halve(b, 7) >> 1;
  }

  /** The eight-iteration shift-and-add loop computes the field product. */
  method GaloisMultiply(x: bv8, y: bv8) returns (result: bv8)
    ensures result == Mul(x, y)
  {
    result := 0;
    var a, b := x, y;
    var i := 0;
    while i < 8
      invariant 0 <= i <= 8
      invariant result ^ Mul(a, b) == Mul(x, y)
      invariant b == Halve(y, i)
    {
      ghost var r0, a0, b0 := result, a, b;
      if b & 1 != 0 {
        result := result ^ a;
      }
      var highBit := a & 0x80;
      if highBit != 0 {
        DoubleHigh(a);
      } else {
        DoubleLow(a);
      }
      a := a << 1;
      if highBit != 0 {
        a := a ^ 0x1B;
      }
      b := b >> 1;
      i := i + 1;
      Maintain(result, a, b, r0, a0, b0, x, y);
      HalveStep(y, i - 1, b0, b);
    }
    HalveEight(y);
    MulByZero(a);
  }

  // ---------------------------------------------------------------------------
  // Products by the MixColumns coefficients, as sums of xtime powers
  // ---------------------------------------------------------------------------

  lemma MulOddSum(a: bv8, b: bv8)
    requires b & 1 != 0
    ensures Mul(a, b) == Add(a, Mul(XTime(a), b >> 1))
  {
    MulOdd(a, b);
  }

  /** Multiplying by 1 is the identity. */
  lemma MulByOne(a: bv8)
    ensures Mul(a, 1) == a
  {
    MulOdd(a, 1);
    MulByZero(XTime(a));
  }

  lemma MulBy2(a: bv8)
    ensures Mul(a, 2) == XTime(a)
  {
    MulEven(a, 2);
    MulByOne(XTime(a));
  }

  lemma MulBy3(a: bv8)
    ensures Mul(a, 3) == Add(a, XTime(a))
  {
    MulOddSum(a, 3);
    MulByOne(XTime(a));
  }

  lemma MulBy4(a: bv8)
    ensures Mul(a, 4) == XTime(XTime(a))
  {
    MulEven(a, 4);
    MulBy2(XTime(a));
  }

  lemma MulBy5(a: bv8)
    ensures Mul(a, 5) == Add(a, XTime(XTime(a)))
  {
    MulOddSum(a, 5);
    MulBy2(XTime(a));
  }

  lemma MulBy6(a: bv8)
    ensures Mul(a, 6) == Add(XTime(a), XTime(XTime(a)))
  {
    MulEven(a, 6);
    MulBy3(XTime(a));
  }

  lemma MulBy7(a: bv8)
    ensures Mul(a, 7) == Add(a, Add(XTime(a), XTime(XTime(a))))
  {
    MulOddSum(a, 7);
    MulBy3(XTime(a));
  }

  lemma MulBy9(a: bv8)
    ensures Mul(a, 9) == Add(a, XTime(XTime(XTime(a))))
  {
    MulOddSum(a, 9);
    MulBy4(XTime(a));
  }

  lemma MulBy11(a: bv8)
    ensures Mul(a, 11) == Add(a, Add(XTime(a), XTime(XTime(XTime(a)))))
  {
    MulOddSum(a, 11);
    MulBy5(XTime(a));
  }

  lemma MulBy13(a: bv8)
    ensures Mul(a, 13) == Add(a, Add(XTime(XTime(a)), XTime(XTime(XTime(a)))))
  {
    MulOddSum(a, 13);
    MulBy6(XTime(a));
  }

  lemma MulBy14(a: bv8)
    ensures Mul(a, 14) == Add(XTime(a), Add(XTime(XTime(a)), XTime(XTime(XTime(a)))))
  {
    MulEven(a, 14);
    MulBy7(XTime(a));
  }

  // ---------------------------------------------------------------------------
  // Rearranging sums
  // ---------------------------------------------------------------------------

  lemma Swap4(a: bv8, b: bv8, c: bv8, d: bv8)
    ensures Add(Add(a, b), Add(c, d)) == Add(Add(a, c), Add(b, d))
  {
    calc {
      Add(Add(a, b), Add(c, d));
      (a ^ b) ^ (c ^ d);
      (a ^ c) ^ (b ^ d);
      Add(Add(a, c), Add(b, d));
    }
  }

  lemma Regroup3(u1: bv8, u2: bv8, u3: bv8, v1: bv8, v2: bv8, v3: bv8)
    ensures Add(Add(u1, v1), Add(Add(u2, v2), Add(u3, v3))) == Add(Add(u1, Add(u2, u3)), Add(v1, Add(v2, v3)))
  {
    Swap4(u2, v2, u3, v3);
    Swap4(u1, v1, Add(u2, u3), Add(v2, v3));
  }

  /** A sum of four, rotated by one place. */
  lemma RotateSum(w: bv8, x: bv8, y: bv8, z: bv8)
    ensures Add(Add(w, x), Add(y, z)) == Add(Add(z, w), Add(x, y))
  {
    calc {
      Add(Add(w, x), Add(y, z));
      (w ^ x) ^ (y ^ z);
      (z ^ w) ^ (x ^ y);
      Add(Add(z, w), Add(x, y));
    }
  }

  lemma AddComm(x: bv8, y: bv8)
    ensures Add(x, y) == Add(y, x)
  {
  }

  // ---------------------------------------------------------------------------
  // Distributivity of the inverse coefficients over addition
  // ---------------------------------------------------------------------------

  lemma XTimeLinear(a: bv8, c: bv8)
    ensures XTime(Add(a, c)) == Add(XTime(a), XTime(c))
  {
  }

  lemma PowersLinear(a: bv8, c: bv8)
    ensures XTime(XTime(Add(a, c))) == Add(XTime(XTime(a)), XTime(XTime(c)))
    ensures XTime(XTime(XTime(Add(a, c)))) == Add(XTime(XTime(XTime(a))), XTime(XTime(XTime(c))))
  {
    XTimeLinear(a, c);
    XTimeLinear(XTime(a), XTime(c));
    XTimeLinear(XTime(XTime(a)), XTime(XTime(c)));
  }

  lemma MulLinear9(a: bv8, c: bv8)
    ensures Mul(Add(a, c), 9) == Add(Mul(a, 9), Mul(c, 9))
  {
    MulBy9(Add(a, c));
    MulBy9(a);
    MulBy9(c);
    XTimeLinear(a, c);
    PowersLinear(a, c);
    Swap4(a, c, XTime(XTime(XTime(a))), XTime(XTime(XTime(c))));
  }

  lemma MulLinear11(a: bv8, c: bv8)
    ensures Mul(Add(a, c), 11) == Add(Mul(a, 11), Mul(c, 11))
  {
    MulBy11(Add(a, c));
    MulBy11(a);
    MulBy11(c);
    XTimeLinear(a, c);
    PowersLinear(a, c);
    Regroup3(a, XTime(a), XTime(XTime(XTime(a))), c, XTime(c), XTime(XTime(XTime(c))));
  }

  lemma MulLinear13(a: bv8, c: bv8)
    ensures Mul(Add(a, c), 13) == Add(Mul(a, 13), Mul(c, 13))
  {
    MulBy13(Add(a, c));
    MulBy13(a);
    MulBy13(c);
    XTimeLinear(a, c);
    PowersLinear(a, c);
    Regroup3(a, XTime(XTime(a)), XTime(XTime(XTime(a))), c, XTime(XTime(c)), XTime(XTime(XTime(c))));
  }

  lemma MulLinear14(a: bv8, c: bv8)
    ensures Mul(Add(a, c), 14) == Add(Mul(a, 14), Mul(c, 14))
  {
    MulBy14(Add(a, c));
    MulBy14(a);
    MulBy14(c);
    XTimeLinear(a, c);
    PowersLinear(a, c);
    Regroup3(XTime(a), XTime(XTime(a)), XTime(XTime(XTime(a))), XTime(c), XTime(XTime(c)), XTime(XTime(XTime(c))));
  }

  /** Multiplication by each inverse MixColumns coefficient distributes over addition. */
  lemma MulLinear(a: bv8, c: bv8, k: bv8)
    requires k == 9 || k == 11 || k == 13 || k == 14
    ensures Mul(Add(a, c), k) == Add(Mul(a, k), Mul(c, k))
  {
    if k == 9 {
      MulLinear9(a, c);
    } else if k == 11 {
      MulLinear11(a, c);
    } else if k == 13 {
      MulLinear13(a, c);
    } else {
      MulLinear14(a, c);
    }
  }

  lemma MulLinear4(w: bv8, x: bv8, y: bv8, z: bv8, k: bv8)
    requires k == 9 || k == 11 || k == 13 || k == 14
    ensures Mul(Add(Add(w, x), Add(y, z)), k) == Add(Add(Mul(w, k), Mul(x, k)), Add(Mul(y, k), Mul(z, k)))
  {
    MulLinear(Add(w, x), Add(y, z), k);
    MulLinear(w, x, k);
    MulLinear(y, z, k);
  }

  lemma ColumnA(a: bv8, x1: bv8, x2: bv8, x3: bv8, x4: bv8)
    ensures Add(Add(Add(x2, Add(x3, x4)), Add(a, Add(x1, x3))), Add(Add(a, Add(x2, x3)), Add(Add(a, x3), Add(x1, x4)))) == a
  {
    calc {
      Add(Add(Add(x2, Add(x3, x4)), Add(a, Add(x1, x3))), Add(Add(a, Add(x2, x3)), Add(Add(a, x3), Add(x1, x4))));
      Add(Add(Add(x2, (x3 ^ x4)), Add(a, (x1 ^ x3))), Add(Add(a, (x2 ^ x3)), Add((a ^ x3), (x1 ^ x4))));
      a;
    }
  }

  lemma ColumnB(b: bv8, x1: bv8, x2: bv8, x3: bv8, x4: bv8)
    ensures Add(Add(Add(Add(x1, Add(x2, x3)), Add(x2, Add(x3, x4))), Add(x1, Add(x2, x4))), Add(Add(b, Add(x2, x3)), Add(b, x3))) == 0
  {
    calc {
      Add(Add(Add(Add(x1, Add(x2, x3)), Add(x2, Add(x3, x4))), Add(x1, Add(x2, x4))), Add(Add(b, Add(x2, x3)), Add(b, x3)));
      Add(Add(Add(Add(x1, (x2 ^ x3)), Add(x2, (x3 ^ x4))), Add(x1, (x2 ^ x4))), Add(Add(b, (x2 ^ x3)), (b ^ x3)));
      0;
    }
  }

  lemma ColumnC(c: bv8, x1: bv8, x2: bv8, x3: bv8, x4: bv8)
    ensures Add(Add(Add(x1, Add(x2, x3)), Add(Add(c, Add(x1, x3)), Add(x1, Add(x2, x4)))), Add(Add(x1, Add(x3, x4)), Add(c, x3))) == 0
  {
    calc {
      Add(Add(Add(x1, Add(x2, x3)), Add(Add(c, Add(x1, x3)), Add(x1, Add(x2, x4)))), Add(Add(x1, Add(x3, x4)), Add(c, x3)));
      Add(Add(Add(x1, (x2 ^ x3)), Add(Add(c, (x1 ^ x3)), Add(x1, (x2 ^ x4)))), Add(Add(x1, (x3 ^ x4)), (c ^ x3)));
      0;
    }
  }

  lemma ColumnD(d: bv8, x1: bv8, x2: bv8, x3: bv8, x4: bv8)
    ensures Add(Add(Add(x1, Add(x2, x3)), Add(d, Add(x1, x3))), Add(Add(Add(d, Add(x2, x3)), Add(x1, Add(x3, x4))), Add(x1, x4))) == 0
  {
    calc {
      Add(Add(Add(x1, Add(x2, x3)), Add(d, Add(x1, x3))), Add(Add(Add(d, Add(x2, x3)), Add(x1, Add(x3, x4))), Add(x1, x4)));
      Add(Add(Add(x1, (x2 ^ x3)), Add(d, (x1 ^ x3))), Add(Add(Add(d, (x2 ^ x3)), Add(x1, (x3 ^ x4))), (x1 ^ x4)));
      0;
    }
  }

  /** The inverse matrix times the forward matrix: the coefficient of the diagonal entry is 1. */
  lemma InvCoefficientA(a: bv8)
    ensures Add(Add(Mul(Mul(a, 2), 14), Mul(a, 11)), Add(Mul(a, 13), Mul(Mul(a, 3), 9))) == a
  {
    MulBy2(a);
    MulBy14(XTime(a));
    MulBy11(a);
    MulBy13(a);
    MulBy3(a);
    MulLinear9(a, XTime(a));
    MulBy9(a);
    MulBy9(XTime(a));
    ColumnA(a, XTime(a), XTime(XTime(a)), XTime(XTime(XTime(a))), XTime(XTime(XTime(XTime(a)))));
  }

  /** An off-diagonal coefficient of the product of the two matrices is 0. */
  lemma InvCoefficientB(b: bv8)
    ensures Add(Add(Mul(Mul(b, 3), 14), Mul(Mul(b, 2), 11)), Add(Mul(b, 13), Mul(b, 9))) == 0
  {
    MulBy3(b);
    MulLinear14(b, XTime(b));
    MulBy14(b);
    MulBy14(XTime(b));
    MulBy2(b);
    MulBy11(XTime(b));
    MulBy13(b);
    MulBy9(b);
    ColumnB(b, XTime(b), XTime(XTime(b)), XTime(XTime(XTime(b))), XTime(XTime(XTime(XTime(b)))));
  }

  /** An off-diagonal coefficient of the product of the two matrices is 0. */
  lemma InvCoefficientC(c: bv8)
    ensures Add(Add(Mul(c, 14), Mul(Mul(c, 3), 11)), Add(Mul(Mul(c, 2), 13), Mul(c, 9))) == 0
  {
    MulBy14(c);
    MulBy3(c);
    MulLinear11(c, XTime(c));
    MulBy11(c);
    MulBy11(XTime(c));
    MulBy2(c);
    MulBy13(XTime(c));
    MulBy9(c);
    ColumnC(c, XTime(c), XTime(XTime(c)), XTime(XTime(XTime(c))), XTime(XTime(XTime(XTime(c)))));
  }

  /** An off-diagonal coefficient of the product of the two matrices is 0. */
  lemma InvCoefficientD(d: bv8)
    ensures Add(Add(Mul(d, 14), Mul(d, 11)), Add(Mul(Mul(d, 3), 13), Mul(Mul(d, 2), 9))) == 0
  {
    MulBy14(d);
    MulBy11(d);
    MulBy3(d);
    MulLinear13(d, XTime(d));
    MulBy13(d);
    MulBy13(XTime(d));
    MulBy2(d);
    MulBy9(XTime(d));
    ColumnD(d, XTime(d), XTime(XTime(d)), XTime(XTime(XTime(d))), XTime(XTime(XTime(XTime(d)))));
  }

  /**
   * A sum of four rows of four equals the sum of the four wrapped diagonals,
   * where diagonal j takes entry j of row 0, entry j - 1 of row 1, and so on.
   */
  lemma SumByDiagonals(x00: bv8, x01: bv8, x02: bv8, x03: bv8, x10: bv8, x11: bv8, x12: bv8, x13: bv8, x20: bv8, x21: bv8, x22: bv8, x23: bv8, x30: bv8, x31: bv8, x32: bv8, x33: bv8)
    ensures Add(Add(Add(Add(x00, x01), Add(x02, x03)), Add(Add(x10, x11), Add(x12, x13))), Add(Add(Add(x20, x21), Add(x22, x23)), Add(Add(x30, x31), Add(x32, x33))))
         == Add(Add(Add(Add(x00, x13), Add(x22, x31)), Add(Add(x01, x10), Add(x23, x32))), Add(Add(Add(x02, x11), Add(x20, x33)), Add(Add(x03, x12), Add(x21, x30))))
  {
    RotateSum(x10, x11, x12, x13);
    AddComm(Add(x20, x21), Add(x22, x23));
    RotateSum(x31, x32, x33, x30);
    Swap4(Add(x00, x01), Add(x02, x03), Add(x13, x10), Add(x11, x12));
    Swap4(x00, x01, x13, x10);
    Swap4(x02, x03, x11, x12);
    Swap4(Add(x22, x23), Add(x20, x21), Add(x31, x32), Add(x33, x30));
    Swap4(x22, x23, x31, x32);
    Swap4(x20, x21, x33, x30);
    Swap4(Add(Add(x00, x13), Add(x01, x10)), Add(Add(x02, x11), Add(x03, x12)), Add(Add(x22, x31), Add(x23, x32)), Add(Add(x20, x33), Add(x21, x30)));
    Swap4(Add(x00, x13), Add(x01, x10), Add(x22, x31), Add(x23, x32));
    Swap4(Add(x02, x11), Add(x03, x12), Add(x20, x33), Add(x21, x30));
  }

  lemma SumOfZeros(a: bv8)
    ensures Add(Add(a, 0), Add(0, 0)) == a
  {
  }

  // ---------------------------------------------------------------------------
  // The MixColumns matrix and its inverse
  // ---------------------------------------------------------------------------

  /**
   * First row of the MixColumns matrix applied to the column (a, b, c, d);
   * row i is this function applied to the column rotated up by i places.
   */
  function MixWord(a: bv8, b: bv8, c: bv8, d: bv8): bv8 {
    Add(Add(Mul(a, 2), Mul(b, 3)), Add(c, d))
  }

  /** First row of the inverse MixColumns matrix, rotated the same way. */
  function InvMixWord(a: bv8, b: bv8, c: bv8, d: bv8): bv8 {
    Add(Add(Mul(a, 14), Mul(b, 11)), Add(Mul(c, 13), Mul(d, 9)))
  }

  /**
   * The inverse matrix undoes the forward matrix: the first entry of the
   * restored column is the first entry of the original one. The other
   * entries follow by rotating the arguments.
   */
  lemma InvMixWordMixWord(a: bv8, b: bv8, c: bv8, d: bv8)
    ensures InvMixWord(MixWord(a, b, c, d), MixWord(b, c, d, a), MixWord(c, d, a, b), MixWord(d, a, b, c)) == a
  {
    MulLinear4(Mul(a, 2), Mul(b, 3), c, d, 14);
    MulLinear4(Mul(b, 2), Mul(c, 3), d, a, 11);
    MulLinear4(Mul(c, 2), Mul(d, 3), a, b, 13);
    MulLinear4(Mul(d, 2), Mul(a, 3), b, c, 9);
    SumByDiagonals(Mul(Mul(a, 2), 14), Mul(Mul(b, 3), 14), Mul(c, 14), Mul(d, 14),
                   Mul(Mul(b, 2), 11), Mul(Mul(c, 3), 11), Mul(d, 11), Mul(a, 11),
                   Mul(Mul(c, 2), 13), Mul(Mul(d, 3), 13), Mul(a, 13), Mul(b, 13),
                   Mul(Mul(d, 2), 9), Mul(Mul(a, 3), 9), Mul(b, 9), Mul(c, 9));
    InvCoefficientA(a);
    InvCoefficientB(b);
    InvCoefficientC(c);
    InvCoefficientD(d);
    SumOfZeros(a);
  }
}
