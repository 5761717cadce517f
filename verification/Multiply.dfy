/** machine/mipssim.cc, Mult: the R2000's double-word multiply, one bit of `a` at a time.
    Machine words are integers here; every wrap-around of the source's 32-bit arithmetic is written out. */
module Multiply {
  import opened Bytes

  const W := 0x1_0000_0000          // 2^32
  const SIGN := 0x8000_0000         // 2^31

  type Int32 = x: int | -SIGN <= x < SIGN
  type UInt32 = x: int | 0 <= x < W

  /** The same 32 bits read as unsigned, and as signed. */
  function Unsigned(x: Int32): (u: UInt32)
    ensures u == x || u == x + W
  {
    if x < 0 then x + W else x
  }

  function Signed(u: UInt32): (x: Int32)
    ensures Unsigned(x) == u
  {
    if u >= SIGN then u - W else u
  }

  /** -x in 32 bits: the most negative value is its own negation. */
  function Negate(x: Int32): (r: Int32)
    ensures x < 0 ==> Unsigned(r) as int == -(x as int)
  {
    if x == -SIGN then -SIGN else -x
  }

  /** The double word hi:lo, read as unsigned. */
  function Value(hi: UInt32, lo: UInt32): (v: nat) {
    hi * W + lo
  }

  function Pow2(n: nat): (p: nat)
    ensures p > 0
  {
    if n == 0 then 1 else 2 * Pow2(n - 1)
  }

  lemma Pow2Of32()
    ensures Pow2(32) == W
  {
    assert Pow2(8) == 0x100;
    assert Pow2(16) == 0x1_0000 by { assert Pow2(12) == 0x1000; }
    assert Pow2(24) == 0x100_0000 by { assert Pow2(20) == 0x10_0000; }
    assert Pow2(28) == 0x1000_0000;
  }

  /** Two double words added: the low words first, then the carry, then the high words. */
  lemma AddWithCarry(hi: UInt32, lo: UInt32, vHi: UInt32, vLo: UInt32)
    requires Value(hi, lo) + Value(vHi, vLo) < W * W
    ensures var lo1 := (lo + vLo) % W;
            var hi1 := if lo1 < vLo then (hi + 1) % W else hi;
            Value((hi1 + vHi) % W, lo1) == Value(hi, lo) + Value(vHi, vLo)
  {
  }

  /** A double word shifted left by one. */
  lemma ShiftLeft(vHi: UInt32, vLo: UInt32)
    requires 2 * Value(vHi, vLo) < W * W
    ensures var hi1 := if vLo >= SIGN then vHi * 2 % W + 1 else vHi * 2 % W;
            Value(hi1, vLo * 2 % W) == 2 * Value(vHi, vLo)
  {
  }

  /** The two's complement of a double word. */
  lemma Complement(hi: UInt32, lo: UInt32)
    requires Value(hi, lo) > 0
    ensures var lo1 := (W - 1 - lo + 1) % W;
            var hi1 := if lo1 == 0 then (W - 1 - hi + 1) % W else W - 1 - hi;
            Value(hi1, lo1) == W * W - Value(hi, lo)
  {
  }

  lemma ProductBound(a: nat, b: nat, bound: nat)
    requires 0 < a <= bound && 0 < b <= bound
    ensures 0 < a * b <= bound * bound
  {
    assert a * b <= bound * b;
  }

  /** `acc` so far, plus `v` for every unit of `r` still to come, is the product. */
  ghost predicate Progress(acc: int, v: int, r: nat, product: int) {
    if r == 0 then acc == product else 0 <= acc && 0 <= v && acc + v * r == product
  }

  lemma Halved(v: int, q: nat, bit: nat)
    ensures v * (2 * q + bit) == 2 * v * q + v * bit
  {
  }

  lemma AtMostProduct(v: nat, r: nat)
    requires r > 0
    ensures v <= v * r
  {
  }

  /** One bit of the multiplier: add `v` if the bit is set, then double `v`. No addition overflows. */
  lemma OneRound(acc: int, v: int, r: nat, product: int)
    requires Progress(acc, v, r, product) && 0 <= acc && 0 <= v
    ensures var acc' := acc + if r % 2 == 1 then v else 0;
            && acc' <= product
            && (r == 1 ==> acc' == product)
            && (r / 2 > 0 ==> 2 * v <= product)
            && Progress(acc', 2 * v, r / 2, product)
  {
    var q, bit := r / 2, r % 2;
    Halved(v, q, bit);
    if r > 0 {
      AtMostProduct(v, r);
    }
    if q > 0 {
      AtMostProduct(2 * v, q);
    }
  }

  lemma LastRound(acc: int, v: int, w: int, r: nat, product: int)
    requires Progress(acc, v, r, product) && (r > 0 ==> w == v)
    ensures Progress(acc, w, r, product)
  {
  }

  /** The word `a` after 32 - n arithmetic shifts: the bits `r` still to be looked at, below copies of the sign. */
  ghost predicate Remaining(a: int, r: nat, n: nat) {
    r < Pow2(n) && (a == r || a == r - Pow2(n))
  }

  lemma OneShift(a: int, r: nat, n: nat)
    requires Remaining(a, r, n) && n > 0
    ensures a % 2 == r % 2 && Remaining(a / 2, r / 2, n - 1)
    ensures a == 1 ==> r == 1
  {
    assert Pow2(n) == 2 * Pow2(n - 1);
  }

  method Mult(a0: Int32, b0: Int32, signedArith: bool) returns (hiOut: Int32, loOut: Int32)
    ensures signedArith ==> hiOut * W + Unsigned(loOut) == a0 * b0
    ensures !signedArith ==> Unsigned(hiOut) * W + Unsigned(loOut) == Unsigned(a0) * Unsigned(b0)
  {
    var a, b := a0, b0;
    if a == 0 || b == 0 {
      return 0, 0;
    }

    var negative := false;
    if signedArith {
      if a < 0 {
        negative := !negative;
        a := Negate(a);
      }
      if b < 0 {
        negative := !negative;
        b := Negate(b);
      }
    }
    var hi, lo := MultUnsigned(a, b);
    MagnitudeOfProduct(a0, b0);

    if negative {
      Complement(hi, lo);
      hi := W - 1 - hi;
      lo := W - 1 - lo;
      lo := (lo + 1) % W;
      if lo == 0 {
        hi := (hi + 1) % W;
      }
    }
    hiOut, loOut := Signed(hi), Signed(lo);
  }

  lemma MagnitudeOfProduct(a: Int32, b: Int32)
    requires a != 0 && b != 0
    ensures 0 < Abs(a) * Abs(b) <= SIGN * SIGN
    ensures a as int * b == if (a < 0) != (b < 0) then -(Abs(a) * Abs(b)) else Abs(a) * Abs(b)
  {
    ProductBound(Abs(a), Abs(b), SIGN);
  }

  /** The loop of Mult: `a & 1` is a % 2, and the arithmetic shift `a >>= 1` is a division that rounds down. */
  method MultUnsigned(a0: Int32, b: Int32) returns (hi: UInt32, lo: UInt32)
    requires a0 != 0 && b != 0
    ensures Value(hi, lo) == Unsigned(a0) as int * Unsigned(b)
  {
    hide Progress;
    hide Remaining;
    hide Value;
    var a := a0;
    var bLo: UInt32 := Unsigned(b);
    var bHi: UInt32 := 0;
    lo, hi := 0, 0;
    ghost var product: int := Unsigned(a0) as int * Unsigned(b);
    ghost var r: nat := Unsigned(a0);  // the bits of a not yet looked at
    Start(a0, Unsigned(b));
    for i := 0 to 32
      invariant Remaining(a, r, 32 - i)
      invariant Value(hi, lo) <= product < W * W
      invariant Progress(Value(hi, lo), Value(bHi, bLo), r, product)
    {
      ghost var acc, v := Value(hi, lo), Value(bHi, bLo);
      OneRound(acc, v, r, product);
      OneShift(a, r, 32 - i);
      if a % 2 == 1 {
        AddWithCarry(hi, lo, bHi, bLo);
        lo := (lo + bLo) % W;
        if lo < bLo {
          hi := (hi + 1) % W;
        }
        hi := (hi + bHi) % W;
        if a == 1 {
          return;
        }
      }
      assert Value(hi, lo) == acc + if r % 2 == 1 then v else 0;
      if r / 2 > 0 {
        ShiftLeft(bHi, bLo);
      }
      bHi := bHi * 2 % W;
      if bLo >= SIGN {
        bHi := bHi + 1;
      }
      bLo := bLo * 2 % W;
      LastRound(Value(hi, lo), 2 * v, Value(bHi, bLo), r / 2, product);
      a := a / 2;
      r := r / 2;
    }
    Finish(a, r, Value(hi, lo), Value(bHi, bLo), product);
  }

  lemma Start(a0: Int32, ub: UInt32)
    requires a0 != 0 && ub != 0
    ensures Remaining(a0, Unsigned(a0), 32)
    ensures Progress(0, ub, Unsigned(a0), Unsigned(a0) as int * ub)
    ensures 0 <= Unsigned(a0) as int * ub < W * W
    ensures Value(0, 0) == 0 && Value(0, ub) == ub
  {
    Pow2Of32();
    ProductBound(Unsigned(a0), ub, W - 1);
  }

  lemma Finish(a: int, r: nat, acc: int, v: int, product: int)
    requires Remaining(a, r, 0) && Progress(acc, v, r, product)
    ensures acc == product
  {
  }
}
