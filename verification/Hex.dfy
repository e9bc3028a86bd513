/** Numbers as hexadecimal text, the way the gdb server writes and reads them. */
module Hex {
  import opened Numbers

  /** `character_hex_value`: 0xff for what is no digit. */
  function HexValue(c: Byte): (v: Byte)
    ensures v < 16 || v == 0xff
  {
    if '0' as int <= c <= '9' as int then c - '0' as int
    else if 'a' as int <= c <= 'f' as int then 10 + c - 'a' as int
    else if 'A' as int <= c <= 'F' as int then 10 + c - 'A' as int
    else 0xff
  }

  const DIGITS := "0123456789abcdef"
  const UPPER_DIGITS := "0123456789ABCDEF"

  /** The value of a digit is its place among the sixteen, in either case; whatever else is read is no digit. */
  lemma HexValueExactlyWhen(c: Byte, v: nat)
    requires v < 16
    ensures HexValue(c) == v <==> c == DIGITS[v] as int || c == UPPER_DIGITS[v] as int
  {
    var lower := ['0', '1', '2', '3', '4', '5', '6', '7', '8', '9', 'a', 'b', 'c', 'd', 'e', 'f'];
    var upper := ['0', '1', '2', '3', '4', '5', '6', '7', '8', '9', 'A', 'B', 'C', 'D', 'E', 'F'];
    assert DIGITS == lower && UPPER_DIGITS == upper;
  }

  /** A digit of `%02x`. */
  function HexChar(v: nat): Byte
    requires v < 16
  {
    if v < 10 then '0' as int + v else 'a' as int + v - 10
  }

  lemma HexRoundTrip(v: nat)
    requires v < 16
    ensures HexValue(HexChar(v)) == v && HexChar(v) == DIGITS[v] as int
  {
    var lower := ['0', '1', '2', '3', '4', '5', '6', '7', '8', '9', 'a', 'b', 'c', 'd', 'e', 'f'];
    assert DIGITS == lower;
  }

  /** `%02x` */
  function Hex2(b: Byte): (s: seq<Byte>)
    ensures |s| == 2
  {
    [HexChar(b / 16), HexChar(b % 16)]
  }

  // ----- putting digits together -----

  lemma OrNibble(x: nat, c: nat)
    requires c < 16
    ensures Or(16 * x, c) == 16 * x + c
  {
    hide Or;
    var c3, c2, c1, c0 := c / 8, c / 4 % 2, c / 2 % 2, c % 2;
    assert c == 8 * c3 + 4 * c2 + 2 * c1 + c0;
    OrStep(8 * x, 0, 4 * c3 + 2 * c2 + c1, c0);
    OrStep(4 * x, 0, 2 * c3 + c2, c1);
    OrStep(2 * x, 0, c3, c2);
    OrStep(x, 0, 0, c3);
    OrNothing(x);
  }

  /** A digit goes into a free place: above it there are multiples of its place, below it lower digits. */
  lemma {:induction false} OrDigit(x: nat, y: nat, c: nat, s: nat)
    requires c < 16 && y < Pow2(s)
    ensures Or(16 * x * Pow2(s) + y, c * Pow2(s)) == (16 * x + c) * Pow2(s) + y
  {
    hide Or;
    if s == 0 {
      OrNibble(x, c);
    } else {
      var p := Pow2(s - 1);
      OrDigit(x, y / 2, c, s - 1);
      OrStep(16 * x * p + y / 2, y % 2, c * p, 0);
      Doubled(16 * x, p);
      Doubled(c, p);
      Doubled(16 * x + c, p);
    }
  }

  lemma Doubled(x: nat, p: nat)
    ensures x * (2 * p) == 2 * (x * p)
  {}

  // ----- little-endian text -----

  /** Bytes, lowest first, each with its high digit first; a digit without a partner is a high digit. */
  function LeValue(ds: seq<nat>): nat {
    if ds == [] then 0
    else if |ds| == 1 then 16 * ds[0]
    else 16 * ds[0] + ds[1] + 256 * LeValue(ds[2..])
  }

  predicate AreDigits(ds: seq<nat>) { forall i :: 0 <= i < |ds| ==> ds[i] < 16 }

  /** The place of the k-th digit of the text. */
  function Place(k: nat): nat { if k % 2 == 0 then 4 * k + 4 else 4 * k - 4 }

  /** The weight of a digit that is appended. */
  lemma {:induction false} LeAppend(ds: seq<nat>, c: nat)
    ensures LeValue(ds + [c]) == LeValue(ds) + c * Pow2(Place(|ds|))
  {
    if |ds| >= 2 {
      LeAppend(ds[2..], c);
      assert (ds + [c])[2..] == ds[2..] + [c];
      TwoPlacesUp(|ds| - 2, c);
    } else if |ds| == 1 {
      assert (ds + [c])[2..] == [];
    }
  }

  lemma TwoPlacesUp(k: nat, c: nat)
    ensures 256 * (c * Pow2(Place(k))) == c * Pow2(Place(k + 2))
  {
    Pow2Eight(Place(k));
    assert Place(k + 2) == Place(k) + 8;
    var p := Pow2(Place(k));
    assert 256 * (c * p) == c * (256 * p);
  }

  lemma {:induction false} LeBound(ds: seq<nat>)
    requires AreDigits(ds) && |ds| % 2 == 0
    ensures LeValue(ds) < Pow2(4 * |ds|)
  {
    if |ds| >= 2 {
      LeBound(ds[2..]);
      Pow2Eight(4 * (|ds| - 2));
    }
  }

  /** A digit goes into free bits, so that `or` appends it. */
  lemma OrAppends(ds: seq<nat>, c: nat)
    requires AreDigits(ds) && c < 16
    ensures Or(LeValue(ds), c * Pow2(Place(|ds|))) == LeValue(ds + [c])
  {
    hide Or, LeValue, Pow2, Place;
    if |ds| % 2 == 0 {
      OrAppendsHigh(ds, c);
    } else {
      assert ds == ds[..|ds| - 1] + [ds[|ds| - 1]];
      OrAppendsLow(ds[..|ds| - 1], ds[|ds| - 1], c);
    }
  }

  lemma OrAppendsHigh(ds: seq<nat>, c: nat)
    requires AreDigits(ds) && c < 16 && |ds| % 2 == 0
    ensures Or(LeValue(ds), c * Pow2(Place(|ds|))) == LeValue(ds + [c])
  {
    hide Or, LeValue, Pow2, AreDigits;
    LeAppend(ds, c);
    LeBound(ds);
    Pow2Four(4 * |ds|);
    OrDigit(0, LeValue(ds), c, 4 * |ds| + 4);
  }

  lemma OrAppendsLow(ds: seq<nat>, high: nat, c: nat)
    requires AreDigits(ds) && high < 16 && c < 16 && |ds| % 2 == 0
    ensures Or(LeValue(ds + [high]), c * Pow2(Place(|ds| + 1))) == LeValue(ds + [high] + [c])
  {
    hide Or, LeValue, Pow2, AreDigits;
    LeAppend(ds + [high], c);
    LeAppend(ds, high);
    LeBound(ds);
    Pow2Four(4 * |ds|);
    OrDigit(high, LeValue(ds), c, 4 * |ds|);
    TopDigit(high, c, Pow2(4 * |ds|));
  }

  lemma TopDigit(high: nat, c: nat, p: nat)
    ensures high * (16 * p) == 16 * high * p && (16 * high + c) * p == 16 * high * p + c * p
  {}

  // ----- reading -----

  predicate IsHex(c: Byte) { HexValue(c) <= 15 }

  function HexRun(p: seq<Byte>, i: nat): (e: nat)
    requires i <= |p|
    ensures i <= e <= |p| && (forall k :: i <= k < e ==> IsHex(p[k])) && (e < |p| ==> !IsHex(p[e]))
    decreases |p| - i
  {
    if i < |p| && IsHex(p[i]) then HexRun(p, i + 1) else i
  }

  function DigitsOf(s: seq<Byte>): (ds: seq<nat>)
    ensures |ds| == |s|
  {
    seq(|s|, i requires 0 <= i < |s| => HexValue(s[i]) as nat)
  }

  lemma ShiftFits(c: nat, s: nat)
    requires c < 16 && s <= 60
    ensures c * Pow2(s) < W64
  {
    hide Pow2;
    Pow2Monotone(s, 60);
    Pow2Sixty();
    MulMonotone(c, 15, Pow2(s));
  }

  /** `c << s` in 64 bits. */
  function Shifted(c: nat, s: nat): nat { c * Pow2(s) % W64 }

  lemma OrShifted(ds: seq<nat>, c: nat)
    requires AreDigits(ds) && c < 16 && Place(|ds|) <= 60
    ensures Or(LeValue(ds), Shifted(c, Place(|ds|))) == LeValue(ds + [c])
  {
    hide Or, LeValue, Pow2, Place, AreDigits;
    OrAppends(ds, c);
    ShiftFits(c, Place(|ds|));
  }

  lemma Pow2Sixty()
    ensures Pow2(60) == 0x1000_0000_0000_0000
  {
    hide Pow2;
    Pow2Zero();
    Pow2Four(0);
    Pow2Eight(4);
    Pow2Eight(12);
    Pow2Eight(20);
    Pow2Eight(28);
    Pow2Eight(36);
    Pow2Eight(44);
    Pow2Eight(52);
  }

  lemma {:induction false} Pow2Monotone(a: nat, b: nat)
    requires a <= b
    ensures Pow2(a) <= Pow2(b)
    decreases b
  {
    if a < b {
      Pow2Monotone(a, b - 1);
    }
  }

  /** `consume_hex_number_le`. With more than 16 digits its shift count would exceed the width of the value. */
  method ConsumeHexNumberLe(p: seq<Byte>, iter: nat) returns (value: nat, next: nat)
    requires iter <= |p| && HexRun(p, iter) - iter <= 16
    ensures next == HexRun(p, iter) && value == LeValue(DigitsOf(p[iter..next]))
  {
    hide LeValue, Or, Shifted, HexValue, HexRun, Place, AreDigits, DigitsOf, IsHex;
    value, next := 0, iter;
    var shift := 4;
    ReadNothing(p, iter);
    while next != |p| && IsHex(p[next])
      invariant iter <= next <= |p| && HexRun(p, next) == HexRun(p, iter)
      invariant shift == Place(next - iter) && next <= HexRun(p, next)
      invariant AreDigits(DigitsOf(p[iter..next])) && value == LeValue(DigitsOf(p[iter..next]))
      decreases |p| - next
    {
      var c := HexValue(p[next]);
      ReadOne(p, iter, next);
      OrShifted(DigitsOf(p[iter..next]), c);
      next := next + 1;
      value := Or(value, Shifted(c, shift));
      if shift % 8 == 0 {
        shift := shift + 12;
      } else {
        shift := shift - 4;
      }
    }
    ReadOne(p, iter, next);
  }

  lemma ReadNothing(p: seq<Byte>, i: nat)
    requires i <= |p|
    ensures var ds := DigitsOf(p[i..i]);
            AreDigits(ds) && LeValue(ds) == 0 && Place(0) == 4
  {}

  lemma ReadOne(p: seq<Byte>, i: nat, k: nat)
    requires i <= k <= |p| && AreDigits(DigitsOf(p[i..k])) && k <= HexRun(p, k) && HexRun(p, k) - i <= 16
    ensures k == |p| || !IsHex(p[k]) ==> HexRun(p, k) == k
    ensures k < |p| && IsHex(p[k]) ==>
              var c, place := HexValue(p[k]), Place(k - i);
              && HexRun(p, k + 1) == HexRun(p, k) && c < 16 && place <= 60
              && AreDigits(DigitsOf(p[i..k + 1])) && |DigitsOf(p[i..k])| == k - i
              && DigitsOf(p[i..k + 1]) == DigitsOf(p[i..k]) + [c]
              && Place(k + 1 - i) == if place % 8 == 0 then place + 12 else place - 4
  {
    if k < |p| && IsHex(p[k]) {
      assert p[i..k + 1] == p[i..k] + [p[k]];
      var ds, c := DigitsOf(p[i..k]), HexValue(p[k]) as nat;
      assert DigitsOf(p[i..k + 1]) == ds + [c];
      assert forall j :: 0 <= j < |ds + [c]| ==> (ds + [c])[j] < 16;
      PlaceNext(k - i);
    }
  }

  lemma PlaceNext(k: nat)
    ensures Place(k + 1) == if Place(k) % 8 == 0 then Place(k) + 12 else Place(k) - 4
    ensures k < 16 ==> Place(k) <= 60
  {
    var h := k / 2;
    assert k == 2 * h || k == 2 * h + 1;
  }

  // ----- writing -----

  /** `n` bytes of a number, the lowest one first. */
  function HexLe(v: nat, n: nat): (s: seq<Byte>)
    ensures |s| == 2 * n
  {
    if n == 0 then [] else Hex2(v % 256) + HexLe(v / 256, n - 1)
  }

  lemma {:induction false} HexLeIsHex(v: nat, n: nat)
    ensures forall k :: 0 <= k < 2 * n ==> IsHex(HexLe(v, n)[k])
  {
    if n > 0 {
      HexLeIsHex(v / 256, n - 1);
      HexRoundTrip(v % 256 / 16);
      HexRoundTrip(v % 256 % 16);
    }
  }

  lemma {:induction false} LeRoundTrip(v: nat, n: nat)
    requires v < Pow2(8 * n)
    ensures LeValue(DigitsOf(HexLe(v, n))) == v
  {
    hide HexValue, HexChar;
    if n > 0 {
      Pow2Eight(8 * n - 8);
      LeRoundTrip(v / 256, n - 1);
      HexRoundTrip(v % 256 / 16);
      HexRoundTrip(v % 256 % 16);
      assert DigitsOf(HexLe(v, n))[2..] == DigitsOf(HexLe(v / 256, n - 1));
    }
  }

  /** What `send` writes for a number of `n` bytes is read back, up to the first byte that is no digit. */
  lemma SentNumberIsReadBack(v: nat, n: nat, before: seq<Byte>, rest: seq<Byte>)
    requires v < Pow2(8 * n)
    requires rest == [] || !IsHex(rest[0])
    ensures var p := before + HexLe(v, n) + rest;
            && HexRun(p, |before|) == |before| + 2 * n
            && LeValue(DigitsOf(p[|before|..HexRun(p, |before|)])) == v
  {
    hide LeValue, HexLe, IsHex;
    var p := before + HexLe(v, n) + rest;
    HexLeIsHex(v, n);
    LeRoundTrip(v, n);
    var e := |before| + 2 * n;
    assert forall k :: |before| <= k < e ==> p[k] == HexLe(v, n)[k - |before|];
    assert e < |p| ==> p[e] == rest[0];
    RunEnds(p, |before|, e);
    assert p[|before|..e] == HexLe(v, n);
  }

  lemma RunEnds(p: seq<Byte>, i: nat, e: nat)
    requires i <= e <= |p| && (forall k :: i <= k < e ==> IsHex(p[k])) && (e < |p| ==> !IsHex(p[e]))
    ensures HexRun(p, i) == e
  {
    hide IsHex;
  }
}
