/**
 The CRC of CoreMark (`crcu8`, `crcu16`, `crcu32`, `crc16`): it is the remainder of a polynomial
 division over GF(2), and it detects every burst of up to 16 wrong bits.
 */
module Crc {

  // ----- the step -----

  predicate Has(x: bv16, mask: bv16) { x & mask != 0 }

  predicate Odd(crc: bv16) { crc & 1 == 1 }

  function Half(crc: bv16): bv16 { crc >> 1 }

  function Add(c: bv16, d: bv16): bv16 { c ^ d }

  /** The reflected generator. */
  const POLY: bv16 := 0xA001

  /** One bit into the register. */
  function Step(crc: bv16, bit: bool): bv16 {
    if Odd(crc) != bit then Add(Half(crc), POLY) else Half(crc)
  }

  /** A message, first bit first. */
  function CrcBits(crc: bv16, m: seq<bool>): bv16
    decreases |m|
  {
    if m == [] then crc else CrcBits(Step(crc, m[0]), m[1..])
  }

  /** The bits of a byte, least significant first. */
  function Bits8(d: bv8): (bits: seq<bool>)
    ensures |bits| == 8
  {
    [d & 0x01 != 0, d & 0x02 != 0, d & 0x04 != 0, d & 0x08 != 0,
     d & 0x10 != 0, d & 0x20 != 0, d & 0x40 != 0, d & 0x80 != 0]
  }

  function Low8(v: bv16): bv8 { (v & 0xff) as bv8 }

  function High8(v: bv16): bv8 { (v >> 8) as bv8 }

  function Bits16(v: bv16): seq<bool> { Bits8(Low8(v)) + Bits8(High8(v)) }

  function Bits32(v: bv32): seq<bool> { Bits16((v & 0xffff) as bv16) + Bits16((v >> 16) as bv16) }

  function Crc16(v: bv16, crc: bv16): bv16 { CrcBits(crc, Bits16(v)) }

  lemma {:induction false} CrcConcat(crc: bv16, m: seq<bool>, n: seq<bool>)
    ensures CrcBits(crc, m + n) == CrcBits(CrcBits(crc, m), n)
    decreases |m|
  {
    if m == [] {
      assert m + n == n;
    } else {
      CrcConcat(Step(crc, m[0]), m[1..], n);
      assert (m + n)[1..] == m[1..] + n;
    }
  }

  lemma {:induction false} CrcOneMore(crc: bv16, m: seq<bool>, b: bool)
    ensures CrcBits(crc, m + [b]) == Step(CrcBits(crc, m), b)
  {
    CrcConcat(crc, m, [b]);
    assert [b][1..] == [];
  }

  // ----- which bits, and a value -----

  lemma BitsOfHalves(v: bv16)
    ensures Bits8(Low8(v)) ==
      [v & 0x0001 != 0, v & 0x0002 != 0, v & 0x0004 != 0, v & 0x0008 != 0,
       v & 0x0010 != 0, v & 0x0020 != 0, v & 0x0040 != 0, v & 0x0080 != 0]
    ensures Bits8(High8(v)) ==
      [v & 0x0100 != 0, v & 0x0200 != 0, v & 0x0400 != 0, v & 0x0800 != 0,
       v & 0x1000 != 0, v & 0x2000 != 0, v & 0x4000 != 0, v & 0x8000 != 0]
  {}

  /** A number goes into the register with its lowest bit first. */
  lemma BitsOf16(v: bv16)
    ensures Bits16(v) ==
      [v & 0x0001 != 0, v & 0x0002 != 0, v & 0x0004 != 0, v & 0x0008 != 0,
       v & 0x0010 != 0, v & 0x0020 != 0, v & 0x0040 != 0, v & 0x0080 != 0] +
      [v & 0x0100 != 0, v & 0x0200 != 0, v & 0x0400 != 0, v & 0x0800 != 0,
       v & 0x1000 != 0, v & 0x2000 != 0, v & 0x4000 != 0, v & 0x8000 != 0]
  {
    hide Bits8, Low8, High8;
    BitsOfHalves(v);
  }

  lemma BitsOfLowHalf(v: bv32)
    ensures Bits8(Low8((v & 0xffff) as bv16)) ==
      [v & 0x00000001 != 0, v & 0x00000002 != 0, v & 0x00000004 != 0, v & 0x00000008 != 0,
       v & 0x00000010 != 0, v & 0x00000020 != 0, v & 0x00000040 != 0, v & 0x00000080 != 0]
    ensures Bits8(High8((v & 0xffff) as bv16)) ==
      [v & 0x00000100 != 0, v & 0x00000200 != 0, v & 0x00000400 != 0, v & 0x00000800 != 0,
       v & 0x00001000 != 0, v & 0x00002000 != 0, v & 0x00004000 != 0, v & 0x00008000 != 0]
  {}

  lemma BitsOfHighHalf(v: bv32)
    ensures Bits8(Low8((v >> 16) as bv16)) ==
      [v & 0x00010000 != 0, v & 0x00020000 != 0, v & 0x00040000 != 0, v & 0x00080000 != 0,
       v & 0x00100000 != 0, v & 0x00200000 != 0, v & 0x00400000 != 0, v & 0x00800000 != 0]
    ensures Bits8(High8((v >> 16) as bv16)) ==
      [v & 0x01000000 != 0, v & 0x02000000 != 0, v & 0x04000000 != 0, v & 0x08000000 != 0,
       v & 0x10000000 != 0, v & 0x20000000 != 0, v & 0x40000000 != 0, v & 0x80000000 != 0]
  {}

  lemma BitsOf32(v: bv32)
    ensures Bits32(v) ==
      ([v & 0x00000001 != 0, v & 0x00000002 != 0, v & 0x00000004 != 0, v & 0x00000008 != 0,
       v & 0x00000010 != 0, v & 0x00000020 != 0, v & 0x00000040 != 0, v & 0x00000080 != 0] +
       [v & 0x00000100 != 0, v & 0x00000200 != 0, v & 0x00000400 != 0, v & 0x00000800 != 0,
       v & 0x00001000 != 0, v & 0x00002000 != 0, v & 0x00004000 != 0, v & 0x00008000 != 0]) +
      ([v & 0x00010000 != 0, v & 0x00020000 != 0, v & 0x00040000 != 0, v & 0x00080000 != 0,
       v & 0x00100000 != 0, v & 0x00200000 != 0, v & 0x00400000 != 0, v & 0x00800000 != 0] +
       [v & 0x01000000 != 0, v & 0x02000000 != 0, v & 0x04000000 != 0, v & 0x08000000 != 0,
       v & 0x10000000 != 0, v & 0x20000000 != 0, v & 0x40000000 != 0, v & 0x80000000 != 0])
  {
    hide Bits8, Low8, High8;
    BitsOfLowHalf(v);
    BitsOfHighHalf(v);
  }

  /** The bits of a text. */
  function BitsOf(s: seq<bv8>): seq<bool> {
    if s == [] then [] else Bits8(s[0]) + BitsOf(s[1..])
  }

  function EightSteps(crc: bv16, d: bv8): bv16 {
    var c := Step(Step(Step(Step(crc, d & 0x01 != 0), d & 0x02 != 0), d & 0x04 != 0), d & 0x08 != 0);
    Step(Step(Step(Step(c, d & 0x10 != 0), d & 0x20 != 0), d & 0x40 != 0), d & 0x80 != 0)
  }

  lemma FourSteps(crc: bv16, m: seq<bool>)
    requires |m| >= 4
    ensures CrcBits(crc, m) == CrcBits(Step(Step(Step(Step(crc, m[0]), m[1]), m[2]), m[3]), m[4..])
  {
    hide Step;
    assert m[1..][1..] == m[2..] && m[2..][1..] == m[3..] && m[3..][1..] == m[4..];
    assert CrcBits(crc, m) == CrcBits(Step(crc, m[0]), m[1..]) == CrcBits(Step(Step(crc, m[0]), m[1]), m[2..]);
    assert forall c :: CrcBits(c, m[2..]) == CrcBits(Step(Step(c, m[2]), m[3]), m[4..]);
  }

  lemma FirstByte(crc: bv16, s: seq<bv8>)
    requires s != []
    ensures CrcBits(crc, BitsOf(s)) == CrcBits(EightSteps(crc, s[0]), BitsOf(s[1..]))
  {
    hide Step, CrcBits;
    var m, rest := Bits8(s[0]), BitsOf(s[1..]);
    assert BitsOf(s) == m + rest;
    FourSteps(crc, m + rest);
    FourSteps(Step(Step(Step(Step(crc, m[0]), m[1]), m[2]), m[3]), (m + rest)[4..]);
    assert (m + rest)[4..][4..] == rest;
  }

  lemma FirstThree()
    ensures EightSteps(0, 0x31) == 0xd4c1 && EightSteps(0xd4c1, 0x32) == 0x4594
    ensures EightSteps(0x4594, 0x33) == 0xba04
  {}

  lemma NextThree()
    ensures EightSteps(0xba04, 0x34) == 0x14ba && EightSteps(0x14ba, 0x35) == 0xa455
    ensures EightSteps(0xa455, 0x36) == 0x29e4
  {}

  lemma LastThree()
    ensures EightSteps(0x29e4, 0x37) == 0x9d68 && EightSteps(0x9d68, 0x38) == 0x3c9d
    ensures EightSteps(0x3c9d, 0x39) == 0xbb3d
  {}

  /** The check value of this CRC: for the digits 1 to 9, from the register 0, it is 0xbb3d. */
  lemma CheckValue()
    ensures CrcBits(0, BitsOf([0x31, 0x32, 0x33, 0x34, 0x35, 0x36, 0x37, 0x38, 0x39])) == 0xbb3d
  {
    hide *;
    FirstThree();
    NextThree();
    LastThree();
    var s: seq<bv8> := [0x31, 0x32, 0x33, 0x34, 0x35, 0x36, 0x37, 0x38, 0x39];
    FirstByte(0, s);
    FirstByte(0xd4c1, s[1..]);
    FirstByte(0x4594, s[2..]);
    FirstByte(0xba04, s[3..]);
    FirstByte(0x14ba, s[4..]);
    FirstByte(0xa455, s[5..]);
    FirstByte(0x29e4, s[6..]);
    FirstByte(0x9d68, s[7..]);
    FirstByte(0x3c9d, s[8..]);
    assert s[1..][1..] == s[2..] && s[2..][1..] == s[3..] && s[3..][1..] == s[4..] && s[4..][1..] == s[5..];
    assert s[5..][1..] == s[6..] && s[6..][1..] == s[7..] && s[7..][1..] == s[8..] && s[8..][1..] == [];
    NoBits(0xbb3d);
  }

  lemma NoBits(crc: bv16)
    ensures CrcBits(crc, BitsOf([])) == crc
  {}

  // ----- the program -----

  predicate Lowest(d: bv8) { d & 1 == 1 }

  /** The feedback bit: the low bits of the data and of the register differ. */
  function X16(data: bv8, crc: bv16): bv8 { (data & 1) ^ (Low8(crc) & 1) }

  lemma X16IsFeedback(data: bv8, crc: bv16)
    ensures X16(data, crc) == 1 <==> Odd(crc) != Lowest(data)
  {
    assert Low8(crc) & 1 == 1 <==> Odd(crc);
  }

  function SetTop(crc: bv16): bv16 { crc | 0x8000 }

  function ClearTop(crc: bv16): bv16 { crc & 0x7fff }

  lemma CarryIsPoly(crc: bv16)
    ensures SetTop(Half(Add(crc, 0x4002))) == Add(Half(crc), POLY)
    ensures ClearTop(Half(crc)) == Half(crc)
  {}

  lemma ShiftedBit(data: bv8)
    ensures Bits8(data)[0] == Lowest(data)
    ensures Bits8(data >> 1) == Bits8(data)[1..] + [false]
  {
    assert Bits8(data >> 1) == [data & 0x02 != 0, data & 0x04 != 0, data & 0x08 != 0, data & 0x10 != 0,
                                data & 0x20 != 0, data & 0x40 != 0, data & 0x80 != 0, false];
  }

  lemma TurnResult(data: bv8, crc: bv16)
    ensures X16(data, crc) == 1 ==> SetTop(Half(Add(crc, 0x4002))) == Step(crc, Lowest(data))
    ensures X16(data, crc) != 1 ==> ClearTop(Half(crc)) == Step(crc, Lowest(data))
  {
    hide Odd, Lowest, Add, Half, X16;
    X16IsFeedback(data, crc);
    CarryIsPoly(crc);
  }

  /** One turn of the loop of `crcu8`. */
  method CrcBit(data0: bv8, crc0: bv16) returns (data: bv8, crc: bv16)
    ensures data == data0 >> 1 && crc == Step(crc0, Lowest(data0))
  {
    hide *;
    TurnResult(data0, crc0);
    data, crc := data0, crc0;
    var x16 := X16(data, crc);
    data := data >> 1;
    var carry: bool;
    if x16 == 1 {
      crc := Add(crc, 0x4002);
      carry := true;
    } else {
      carry := false;
    }
    crc := Half(crc);
    if carry {
      crc := SetTop(crc);
    } else {
      crc := ClearTop(crc);
    }
  }

  /** After `i` turns: the bits so far have gone into the register, the others are left. */
  ghost predicate Turned(bits: seq<bool>, i: nat, data: bv8, crc0: bv16, crc: bv16) {
    && |bits| == 8 && i <= 8 && crc == CrcBits(crc0, bits[..i])
    && forall k :: 0 <= k < 8 - i ==> Bits8(data)[k] == bits[i + k]
  }

  lemma TurnOnce(bits: seq<bool>, i: nat, data: bv8, crc0: bv16, crc: bv16)
    requires Turned(bits, i, data, crc0, crc) && i < 8
    ensures Turned(bits, i + 1, data >> 1, crc0, Step(crc, Lowest(data)))
  {
    hide CrcBits, Step, Lowest, Bits8;
    ShiftedBit(data);
    assert Bits8(data)[0] == bits[i];
    CrcOneMore(crc0, bits[..i], bits[i]);
    assert bits[..i + 1] == bits[..i] + [bits[i]];
    assert forall k :: 0 <= k < 7 ==> Bits8(data >> 1)[k] == Bits8(data)[1..][k];
  }

  method Crcu8(data0: bv8, crc0: bv16) returns (crc: bv16)
    ensures crc == CrcBits(crc0, Bits8(data0))
  {
    hide CrcBits, Step, Lowest;
    EmptyCrc(crc0);
    ghost var bits := Bits8(data0);
    var data := data0;
    crc := crc0;
    var i := 0;
    while i < 8
      invariant 0 <= i <= 8 && Turned(bits, i, data, crc0, crc)
    {
      TurnOnce(bits, i, data, crc0, crc);
      data, crc := CrcBit(data, crc);
      i := i + 1;
    }
    assert bits[..8] == bits;
  }

  lemma EmptyCrc(crc: bv16)
    ensures CrcBits(crc, []) == crc
  {}

  method Crcu16(newval: bv16, crc0: bv16) returns (crc: bv16)
    ensures crc == Crc16(newval, crc0)
  {
    CrcConcat(crc0, Bits8(Low8(newval)), Bits8(High8(newval)));
    crc := Crcu8(Low8(newval), crc0);
    crc := Crcu8(High8(newval), crc);
  }

  method Crcu32(newval: bv32, crc0: bv16) returns (crc: bv16)
    ensures crc == CrcBits(crc0, Bits32(newval))
  {
    CrcConcat(crc0, Bits16((newval & 0xffff) as bv16), Bits16((newval >> 16) as bv16));
    crc := Crcu16((newval & 0xffff) as bv16, crc0);
    crc := Crcu16((newval >> 16) as bv16, crc);
  }

  // ----- the CRC is a remainder -----

  /** The coefficients of x^16 + x^15 + x^2 + 1, highest first. */
  const GENERATOR: seq<bool> :=
    [true, true, false, false, false, false, false, false, false, false, false, false, false, false, true, false, true]

  /** Long division: while there is a coefficient above x^15, take the generator away when it is 1, and drop it. */
  function Remainder(p: seq<bool>): (r: seq<bool>)
    requires |p| >= 16
    ensures |r| == 16
    decreases |p|
  {
    if |p| == 16 then p else Remainder(Reduce(p))
  }

  function Reduce(p: seq<bool>): (r: seq<bool>)
    requires |p| >= 17
    ensures |r| == |p| - 1
  {
    seq(|p| - 1, i requires 0 <= i < |p| - 1 => if i < 16 && p[0] then p[i + 1] != GENERATOR[i + 1] else p[i + 1])
  }

  /** The mask of bit `i` of the register. */
  function Mask(i: nat): bv16
    requires i < 16
  {
    [0x0001, 0x0002, 0x0004, 0x0008, 0x0010, 0x0020, 0x0040, 0x0080,
     0x0100, 0x0200, 0x0400, 0x0800, 0x1000, 0x2000, 0x4000, 0x8000][i]
  }

  /** The register as coefficients: bit 0 is that of x^15. */
  function Coefficients(c: bv16): (r: seq<bool>)
    ensures |r| == 16 && forall i :: 0 <= i < 16 ==> r[i] == Has(c, Mask(i))
  {
    seq(16, i requires 0 <= i < 16 => Has(c, Mask(i)))
  }

  /** The polynomial to divide: the message times x^16, with the register added to its first 16 coefficients. */
  function Dividend(c: bv16, m: seq<bool>): (p: seq<bool>)
    ensures |p| == |m| + 16
  {
    seq(|m| + 16, i requires 0 <= i < |m| + 16 =>
      (i < |m| && m[i]) != (i < 16 && Coefficients(c)[i]))
  }

  lemma MaskFacts(i: nat)
    requires i < 16
    ensures i < 15 ==> Mask(i + 1) == Mask(i) << 1
    ensures i == 15 ==> Mask(i) == 0x8000
    ensures i < 15 ==> Mask(i) & 0x8000 == 0
    ensures Mask(i) & POLY == if GENERATOR[i + 1] then Mask(i) else 0
    ensures Mask(i) != 0
  {}

  lemma HasHalf(c: bv16, mask: bv16)
    ensures mask & 0x8000 == 0 ==> Has(Half(c), mask) == Has(c, mask << 1)
    ensures mask == 0x8000 ==> !Has(Half(c), mask)
  {}

  lemma HasSum(x: bv16, y: bv16, mask: bv16)
    ensures mask & y == 0 ==> Has(Add(x, y), mask) == Has(x, mask)
  {}

  lemma HasSum1(x: bv16, y: bv16, i: nat)
    requires i < 16 && Mask(i) & y == Mask(i)
    ensures Has(Add(x, y), Mask(i)) == !Has(x, Mask(i))
  {}

  lemma BitOfHalf(c: bv16, i: nat)
    requires i < 16
    ensures Has(Half(c), Mask(i)) == (i < 15 && Has(c, Mask(i + 1)))
    ensures Has(Add(Half(c), POLY), Mask(i)) == (Has(Half(c), Mask(i)) != GENERATOR[i + 1])
  {
    hide Add, Half, Has, Mask;
    MaskFacts(i);
    HasHalf(c, Mask(i));
    HasSum(Half(c), POLY, Mask(i));
    if GENERATOR[i + 1] { HasSum1(Half(c), POLY, i); }
  }

  lemma CoefficientOfStep(c: bv16, b: bool, i: nat)
    requires i < 16
    ensures Coefficients(Step(c, b))[i] == ((i < 15 && Coefficients(c)[i + 1]) != (Odd(c) != b && GENERATOR[i + 1]))
  {
    hide Add, Half, Odd, Has, Mask;
    BitOfHalf(c, i);
  }

  lemma LowestCoefficient(c: bv16)
    ensures Coefficients(c)[0] == Odd(c)
  {}

  lemma ReduceIsStep(c: bv16, m: seq<bool>)
    requires m != []
    ensures Reduce(Dividend(c, m)) == Dividend(Step(c, m[0]), m[1..])
  {
    hide Coefficients, Step, Odd;
    var p, q := Dividend(c, m), Dividend(Step(c, m[0]), m[1..]);
    LowestCoefficient(c);
    forall i | 0 <= i < |q| ensures Reduce(p)[i] == q[i] {
      if i < 16 { CoefficientOfStep(c, m[0], i); }
    }
  }

  /** The CRC of a message is the remainder of its polynomial by the generator. */
  lemma {:induction false} CrcIsRemainder(c: bv16, m: seq<bool>)
    ensures Coefficients(CrcBits(c, m)) == Remainder(Dividend(c, m))
    decreases |m|
  {
    if m == [] {
      assert Dividend(c, m) == Coefficients(c);
    } else {
      ReduceIsStep(c, m);
      CrcIsRemainder(Step(c, m[0]), m[1..]);
    }
  }

  // ----- bursts -----

  function Xor(m: seq<bool>, n: seq<bool>): (r: seq<bool>)
    requires |m| == |n|
    ensures |r| == |m|
  {
    seq(|m|, i requires 0 <= i < |m| => m[i] != n[i])
  }

  lemma AddHalf(c: bv16, d: bv16)
    ensures Odd(Add(c, d)) <==> Odd(c) != Odd(d)
    ensures Half(Add(c, d)) == Add(Half(c), Half(d))
  {}

  lemma AddTwice(x: bv16, y: bv16, p: bv16)
    ensures Add(Add(x, p), y) == Add(Add(x, y), p)
    ensures Add(x, Add(y, p)) == Add(Add(x, y), p)
    ensures Add(Add(x, p), Add(y, p)) == Add(x, y)
  {}

  lemma StepLinear(c: bv16, d: bv16, a: bool, b: bool)
    ensures Add(Step(c, a), Step(d, b)) == Step(Add(c, d), a != b)
  {
    hide Add, Half, Odd;
    AddHalf(c, d);
    AddTwice(Half(c), Half(d), POLY);
  }

  /** The CRC of a difference is the difference of the CRCs. */
  lemma {:induction false} CrcLinear(c: bv16, d: bv16, m: seq<bool>, n: seq<bool>)
    requires |m| == |n|
    ensures Add(CrcBits(c, m), CrcBits(d, n)) == CrcBits(Add(c, d), Xor(m, n))
    decreases |m|
  {
    hide Step, Add;
    if m != [] {
      StepLinear(c, d, m[0], n[0]);
      CrcLinear(Step(c, m[0]), Step(d, n[0]), m[1..], n[1..]);
      assert Xor(m, n)[1..] == Xor(m[1..], n[1..]);
    }
  }

  lemma StepZero(c: bv16)
    ensures Step(c, false) == 0 <==> c == 0
  {}

  /** Zero bits neither create nor hide a difference. */
  lemma {:induction false} CrcOfZeros(c: bv16, m: seq<bool>)
    requires forall i :: 0 <= i < |m| ==> !m[i]
    ensures CrcBits(c, m) == 0 <==> c == 0
    decreases |m|
  {
    if m != [] {
      StepZero(c);
      CrcOfZeros(Step(c, false), m[1..]);
    }
  }

  /** The bits from place `k` of the register up. */
  function Above(k: nat): bv16
    requires k <= 16
  {
    [0xffff, 0xfffe, 0xfffc, 0xfff8, 0xfff0, 0xffe0, 0xffc0, 0xff80, 0xff00,
     0xfe00, 0xfc00, 0xf800, 0xf000, 0xe000, 0xc000, 0x8000, 0x0000][k]
  }

  lemma AboveFacts(k: nat)
    requires k < 16
    ensures Above(k) & 0x8000 == 0x8000
    ensures Above(k + 1) == Above(k) << 1
  {}

  lemma StepBack(c: bv16, b: bool, above: bv16)
    requires above & 0x8000 == 0x8000 && Step(c, b) & above == 0
    ensures c & (above << 1) == 0 && Odd(c) == b
  {}

  /** A register that at most 16 bits bring to 0 is nothing but those bits. */
  lemma {:induction false} BackFromZero(c: bv16, m: seq<bool>)
    requires |m| <= 16 && CrcBits(c, m) == 0
    ensures c & Above(|m|) == 0
    ensures m != [] ==> Odd(c) == m[0]
    decreases |m|
  {
    if m != [] {
      BackFromZero(Step(c, m[0]), m[1..]);
      AboveFacts(|m| - 1);
      StepBack(c, m[0], Above(|m| - 1));
    }
  }

  /** The difference between two messages is a burst: it is not empty, and it fits in 16 consecutive bits. */
  ghost predicate Burst(m: seq<bool>, n: seq<bool>, s: nat) {
    && |m| == |n| && m != n
    && forall i :: 0 <= i < |m| && !(s <= i < s + 16) ==> m[i] == n[i]
  }

  /** The state the differing bits leave is never 0. */
  lemma {:induction false} BurstIsVisible(d: seq<bool>)
    requires d != [] && d[0] && forall i :: 16 <= i < |d| ==> !d[i]
    ensures CrcBits(0, d) != 0
  {
    var k := if |d| < 16 then |d| else 16;
    var w, z := d[..k], d[k..];
    assert d == w + z;
    CrcConcat(0, w, z);
    if CrcBits(0, w) == 0 {
      BackFromZero(0, w);
      assert false;
    }
    CrcOfZeros(CrcBits(0, w), z);
  }

  /** Every burst of at most 16 bits changes the CRC, in messages of any length and from any register. */
  lemma {:induction false} BurstDetected(c: bv16, m: seq<bool>, n: seq<bool>, s: nat)
    requires Burst(m, n, s)
    ensures CrcBits(c, m) != CrcBits(c, n)
    decreases |m|
  {
    if m[0] == n[0] {
      assert m[1..] != n[1..] by { assert m == [m[0]] + m[1..] && n == [n[0]] + n[1..]; }
      BurstDetected(Step(c, m[0]), m[1..], n[1..], if s > 0 then s - 1 else 0);
    } else {
      var d := Xor(m, n);
      CrcLinear(c, c, m, n);
      assert Add(c, c) == 0;
      assert s == 0;
      forall i | 16 <= i < |d| ensures !d[i] { assert m[i] == n[i]; }
      BurstIsVisible(d);
    }
  }
}
