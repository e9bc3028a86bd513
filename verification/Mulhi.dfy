/**
 `mulhi.h`: the high halves of 128-bit products (RISC-V User-Level ISA 2.1, section 6.1), computed from
 32-bit limbs with 64-bit arithmetic that wraps around.
 */
module Mulhi {
  import opened Numbers

  type U64 = x: int | 0 <= x < W64
  type S64 = x: int | -W63 <= x < W63

  /** A 64-bit unsigned value after wrap-around. */
  function Wrap(x: int): U64 { x % W64 }

  /** A 64-bit value read as a signed one. */
  function Signed(x: U64): S64 { if x < W63 then x else x - W64 }

  function Add(x: U64, y: U64): U64 { Wrap(x + y) }

  function Mul(x: U64, y: U64): U64 { Wrap(x * y) }

  function Low(x: U64): U64 { x % W32 }

  function High(x: U64): U64 { x / W32 }

  function Mulhu(a: U64, b: U64): U64 {
    var a0, a1 := Low(a), High(a);
    var b0, b1 := Low(b), High(b);
    var t := Add(Mul(a1, b0), High(Mul(a0, b0)));
    var y1 := Low(t);
    var y2 := High(t);
    var u := Add(Mul(a0, b1), y1);
    var w := Add(Add(Mul(a1, b1), y2), High(u));
    var y2' := Low(w);
    var y3 := High(w);
    Wrap(y3 * W32 + y2')
  }

  function Abs(a: int): nat { if a < 0 then -a else a }

  /** The sign is put back with a complement, plus the carry out of an all-zero low half. */
  function Negate(res: U64, lowHalfIsZero: bool): U64 {
    Wrap((W64 - 1 - res) + (if lowHalfIsZero then 1 else 0))
  }

  function Mulh(a: S64, b: S64): S64 {
    var negate := (a < 0) != (b < 0);
    var res := Mulhu(Wrap(Abs(a)), Wrap(Abs(b)));
    Signed(if negate then Negate(res, Wrap(a * b) == 0) else res)
  }

  function Mulhsu(a: S64, b: U64): S64 {
    var negate := a < 0;
    var res := Mulhu(Wrap(Abs(a)), b);
    Signed(if negate then Negate(res, Wrap(a * b) == 0) else res)
  }

  // ----- exactness -----

  /** The product of two limbs leaves room for two more limbs. */
  lemma LimbProduct(x: nat, y: nat)
    requires x < W32 && y < W32
    ensures Mul(x, y) == x * y <= W64 - 2 * W32 + 1
  {
    MulMonotone(x, W32 - 1, y);
    LimbProductOf(x * y, y);
  }

  lemma LimbProductOf(p: nat, y: nat)
    requires p <= (W32 - 1) * y && y < W32
    ensures Wrap(p) == p <= W64 - 2 * W32 + 1
  {}

  /** The school method, given the four limb products. */
  lemma Carries(p00: nat, p01: nat, p10: nat, p11: nat)
    requires p00 <= W64 - 2 * W32 + 1 && p01 <= W64 - 2 * W32 + 1
    requires p10 <= W64 - 2 * W32 + 1 && p11 <= W64 - 2 * W32 + 1
    ensures var t := p10 + p00 / W32;
            var u := p01 + t % W32;
            var w := p11 + t / W32 + u / W32;
            && t < W64 && u < W64 && p11 + t / W32 < W64
            && p11 * W64 + (p10 + p01) * W32 + p00 == w * W64 + (u % W32 * W32 + p00 % W32)
            && u % W32 * W32 + p00 % W32 < W64
  {}

  /** `a * b` in terms of the limb products. */
  lemma Expand(a0: nat, a1: nat, b0: nat, b1: nat)
    ensures (a1 * W32 + a0) * (b1 * W32 + b0) == a1 * b1 * W64 + (a1 * b0 + a0 * b1) * W32 + a0 * b0
  {
    var x := a1 * W32;
    var y := b1 * W32;
    assert (x + a0) * (y + b0) == x * y + x * b0 + a0 * y + a0 * b0;
    assert x * y == a1 * b1 * (W32 * W32) by { assert x * y == a1 * (W32 * y) == a1 * (b1 * (W32 * W32)); }
    assert x * b0 == a1 * b0 * W32;
    assert a0 * y == a0 * b1 * W32;
  }

  lemma Fits(x: U64, y: U64)
    requires x + y < W64
    ensures Add(x, y) == x + y
  {}

  lemma Rejoin(w: U64)
    ensures Wrap(High(w) * W32 + Low(w)) == w
  {}

  lemma Halves(x: U64)
    ensures x == High(x) * W32 + Low(x) && 0 <= Low(x) < W32 && 0 <= High(x) < W32
  {}

  /** Unsigned times unsigned: no intermediate sum wraps around, and the result is the exact high half. */
  lemma MulhuExact(a: U64, b: U64)
    ensures Mulhu(a, b) == a * b / W64
  {
    hide Mul, Mulhu, Low, High;
    var a0, a1, b0, b1 := Low(a), High(a), Low(b), High(b);
    Halves(a);
    Halves(b);
    LimbProduct(a0, b0);
    LimbProduct(a0, b1);
    LimbProduct(a1, b0);
    LimbProduct(a1, b1);
    Expand(a0, a1, b0, b1);
    HighHalf(a, b, a * b, Mul(a0, b0), Mul(a0, b1), Mul(a1, b0), Mul(a1, b1));
  }

  /** The school method carries into the exact high half. */
  lemma HighHalf(a: U64, b: U64, p: nat, p00: U64, p01: U64, p10: U64, p11: U64)
    requires p00 == Mul(Low(a), Low(b)) <= W64 - 2 * W32 + 1 && p01 == Mul(Low(a), High(b)) <= W64 - 2 * W32 + 1
    requires p10 == Mul(High(a), Low(b)) <= W64 - 2 * W32 + 1 && p11 == Mul(High(a), High(b)) <= W64 - 2 * W32 + 1
    requires p == p11 * W64 + (p10 + p01) * W32 + p00
    ensures Mulhu(a, b) == p / W64
  {
    hide Mul, Mulhu;
    Carries(p00, p01, p10, p11);
    var t := p10 + High(p00);
    var u := p01 + Low(t);
    var w := p11 + High(t) + High(u);
    var low := Low(u) * W32 + Low(p00);
    assert p == w * W64 + low;
    DivModUnique(p, W64, w, low);
    Unwrapped(a, b, t, u, w);
  }

  /** When no sum exceeds 64 bits, the wrap-arounds can be left out. */
  lemma Unwrapped(a: U64, b: U64, t: U64, u: U64, w: U64)
    requires t == Mul(High(a), Low(b)) + High(Mul(Low(a), Low(b)))
    requires u == Mul(Low(a), High(b)) + Low(t)
    requires w == Mul(High(a), High(b)) + High(t) + High(u)
    ensures Mulhu(a, b) == w
  {
    hide Add, Mul, Low, High, Wrap;
    Halves(u);
    Fits(Mul(High(a), Low(b)), High(Mul(Low(a), Low(b))));
    Fits(Mul(Low(a), High(b)), Low(t));
    Fits(Mul(High(a), High(b)), High(t));
    Fits(Mul(High(a), High(b)) + High(t), High(u));
    Rejoin(w);
  }

  /** Rounding down a negated product. */
  lemma NegatedFloor(p: int, q: int, r: int)
    requires p == q * W64 + r && 0 <= r < W64
    ensures -p / W64 == if r == 0 then -q else -q - 1
    ensures Wrap(-p) == 0 <==> r == 0
  {}

  lemma NegateIsComplement(q: U64, zero: bool)
    requires q < W63 || (zero && q == W63)
    ensures Signed(Negate(q, zero)) == if zero then -(q as int) else -(q as int) - 1
  {}

  /** The high half of a signed product, from the product of the absolute values. */
  lemma SignedHigh(p: int, y: nat, negate: bool)
    requires 0 <= p <= W63 * y && y < W64
    ensures 0 <= p / W64 < W63
    ensures Signed(if negate then Negate(p / W64, Wrap(-p) == 0) else p / W64) == (if negate then -p else p) / W64
  {
    hide Negate, Wrap;
    if negate {
      NegatedFloor(p, p / W64, p % W64);
      NegateIsComplement(p / W64, Wrap(-p) == 0);
    }
  }

  lemma ProductOfSigns(a: int, b: int)
    ensures a * b == if (a < 0) != (b < 0) then -(Abs(a) * Abs(b)) else Abs(a) * Abs(b)
  {
    assert a * b == -(-a * b) == -(a * -b) == -a * -b;
  }

  /** Signed times signed, rounded down: for all operands, the most negative one included. */
  lemma MulhExact(a: S64, b: S64)
    ensures Mulh(a, b) == a * b / W64
  {
    hide Mulhu, Negate, Wrap, Signed, Abs;
    Magnitude(a);
    Magnitude(b);
    MulhuExact(Abs(a), Abs(b));
    ProductOfSigns(a, b);
    MulMonotone(Abs(a), W63, Abs(b));
    SignedHigh(Abs(a) * Abs(b), Abs(b), (a < 0) != (b < 0));
  }

  lemma Magnitude(a: S64)
    ensures Abs(a) <= W63 && Wrap(Abs(a)) == Abs(a)
  {}

  /** Signed times unsigned, rounded down. */
  lemma MulhsuExact(a: S64, b: U64)
    ensures Mulhsu(a, b) == a * b / W64
  {
    hide Mulhu, Negate, Wrap, Signed;
    Magnitude(a);
    MulhuExact(Abs(a), b);
    ProductOfSigns(a, b);
    MulMonotone(Abs(a), W63, b);
    SignedHigh(Abs(a) * b, b, a < 0);
  }
}
