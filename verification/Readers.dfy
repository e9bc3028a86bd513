/** Reading integers: `parseval` of `core_util.c` and `skip_atoi` of `ee_printf.c`, and what they make of `number`. */
module Readers {
  import opened Numbers
  import opened Printf

  /** The character at a position of a C string; the terminator behind its end. */
  function CharAt(s: string, i: nat): char { if i < |s| then s[i] else NOTHING }

  predicate IsDigit(c: char, base: nat) { '0' <= c <= '9' || (base == 16 && 'a' <= c <= 'f') }

  function DigitValue(c: char): nat {
    if '0' <= c <= '9' then (c - '0') as nat else if 'a' <= c <= 'f' then 10 + (c - 'a') as nat else 0
  }

  /** The characters that are read as digits are those that are printed for the digits of the base. */
  lemma DigitExactlyWhen(c: char, base: nat, d: nat)
    requires base == 10 || base == 16
    ensures IsDigit(c, base) && DigitValue(c) == d <==> d < base && c == DIGITS[d]
  {
    if d < base {
      DigitTable(d, false);
    }
  }

  /** Where the run of digits that begins at `i` ends. */
  function RunEnd(s: string, i: nat, base: nat): (e: nat)
    ensures i <= e && (forall k :: i <= k < e ==> IsDigit(CharAt(s, k), base)) && !IsDigit(CharAt(s, e), base)
    ensures i <= |s| ==> e <= |s|
    decreases |s| - i
  {
    if i < |s| && IsDigit(s[i], base) then RunEnd(s, i + 1, base) else i
  }

  function DigitsIn(s: string, i: nat, e: nat): (ds: seq<nat>)
    requires i <= e
    ensures |ds| == e - i
  {
    seq<nat>(e - i, k requires 0 <= k < e - i => DigitValue(CharAt(s, i + k)))
  }

  lemma OneMoreDigit(s: string, i: nat, e: nat, base: nat)
    requires i <= e
    ensures Value(DigitsIn(s, i, e + 1), base) == Value(DigitsIn(s, i, e), base) * base + DigitValue(CharAt(s, e))
  {
    hide Value;
    assert DigitsIn(s, i, e + 1) == DigitsIn(s, i, e) + [DigitValue(CharAt(s, e))];
    ValueNext(DigitsIn(s, i, e), DigitValue(CharAt(s, e)), base);
  }

  // ----- 32-bit arithmetic -----

  /** A 32-bit signed number after wrap-around. */
  function S32(x: int): (r: int)
    ensures -W31 <= r < W31
  {
    (x + W31) % W32 - W31
  }

  lemma S32Shift(x: int, k: int)
    ensures S32(x + k * W32) == S32(x)
  {}

  lemma S32Is(x: int)
    ensures exists k :: x == S32(x) + k * W32
  {
    assert x == S32(x) + ((x + W31) / W32) * W32;
  }

  /** It does not matter whether the wrap-around comes before or after. */
  lemma S32Step(x: int, b: int, d: int)
    ensures S32(S32(x) * b + d) == S32(x * b + d)
    ensures S32(S32(S32(x) * b) + d) == S32(x * b + d)
  {
    hide S32;
    S32Is(x);
    var k :| x == S32(x) + k * W32;
    Expanded(S32(x), k, b);
    S32Shift(S32(x) * b + d, k * b);
    S32Is(S32(x) * b);
    var j :| S32(x) * b == S32(S32(x) * b) + j * W32;
    S32Shift(S32(S32(x) * b) + d, j);
  }

  lemma Expanded(y: int, k: int, b: int)
    ensures (y + k * W32) * b == y * b + k * b * W32
  {
    assert (y + k * W32) * b == y * b + (k * W32) * b;
    assert (k * W32) * b == k * b * W32;
  }

  // ----- parseval -----

  /** What `parseval` reads: sign, base, the digits, and the factor behind them. */
  function ParsedSign(s: string): int { if CharAt(s, 0) == '-' then -1 else 1 }

  function AfterSign(s: string): nat { if CharAt(s, 0) == '-' then 1 else 0 }

  predicate IsHexForm(s: string) { CharAt(s, AfterSign(s)) == '0' && CharAt(s, AfterSign(s) + 1) == 'x' }

  function BaseRead(s: string): nat { if IsHexForm(s) then 16 else 10 }

  function DigitsStart(s: string): nat { if IsHexForm(s) then AfterSign(s) + 2 else AfterSign(s) }

  function Factor(c: char): int { if c == 'K' then 1024 else if c == 'M' then 1024 * 1024 else 1 }

  function Parsed(s: string): int {
    var e := RunEnd(s, DigitsStart(s), BaseRead(s));
    S32(Value(DigitsIn(s, DigitsStart(s), e), BaseRead(s)) * Factor(CharAt(s, e)) * ParsedSign(s))
  }

  /** The digit loops of `parseval`. */
  method ReadDigits(s: string, i: nat, base: nat) returns (retval: int, e: nat)
    requires base == 10 || base == 16
    ensures e == RunEnd(s, i, base) && retval == S32(Value(DigitsIn(s, i, e), base))
  {
    hide S32, Value, RunEnd;
    retval, e := 0, i;
    NoDigitsYet(s, i, base);
    while IsDigit(CharAt(s, e), base)
      invariant i <= e && RunEnd(s, e, base) == RunEnd(s, i, base)
      invariant retval == S32(Value(DigitsIn(s, i, e), base))
      decreases |s| - e
    {
      var digit := DigitValue(CharAt(s, e));
      OneMoreDigit(s, i, e, base);
      S32Step(Value(DigitsIn(s, i, e), base), base, digit);
      RunStep(s, e, base);
      retval := S32(retval * base);
      retval := S32(retval + digit);
      e := e + 1;
    }
    RunStep(s, e, base);
  }

  lemma NoDigitsYet(s: string, i: nat, base: nat)
    ensures S32(Value(DigitsIn(s, i, i), base)) == 0
  {}

  lemma RunStep(s: string, i: nat, base: nat)
    ensures RunEnd(s, i, base) == if IsDigit(CharAt(s, i), base) then RunEnd(s, i + 1, base) else i
    ensures IsDigit(CharAt(s, i), base) ==> i < |s|
  {}

  /** `parseval` */
  method Parseval(s: string) returns (retval: int)
    ensures retval == Parsed(s)
  {
    hide S32, Value, RunEnd, DigitsIn;
    var neg, i := 1, 0;
    if CharAt(s, 0) == '-' {
      neg := -1;
      i := i + 1;
    }
    var hexmode := false;
    if CharAt(s, i) == '0' && CharAt(s, i + 1) == 'x' {
      hexmode := true;
      i := i + 2;
    }
    ghost var start := i;
    retval, i := ReadDigits(s, i, if hexmode then 16 else 10);
    ghost var v := Value(DigitsIn(s, start, i), BaseRead(s));
    S32Step(v, 1024, 0);
    S32Step(v, 1024 * 1024, 0);
    S32Step(v * Factor(CharAt(s, i)), neg, 0);
    S32Twice(v);
    if CharAt(s, i) == 'K' {
      retval := S32(retval * 1024);
    }
    if CharAt(s, i) == 'M' {
      retval := S32(retval * (1024 * 1024));
    }
    retval := S32(retval * neg);
  }

  lemma S32Twice(x: int)
    ensures S32(S32(x)) == S32(x)
  {}

  // ----- skip_atoi -----

  /** `skip_atoi`, for numbers that fit into an `int`. */
  method SkipAtoi(s: string, p: nat) returns (i: nat, next: nat)
    requires Value(DigitsIn(s, p, RunEnd(s, p, 10)), 10) < W31
    ensures next == RunEnd(s, p, 10) && i == Value(DigitsIn(s, p, next), 10)
  {
    hide S32, Value, RunEnd;
    i, next := 0, p;
    NoDigitsRead(s, p);
    while IsDigit(CharAt(s, next), 10)
      invariant p <= next && RunEnd(s, next, 10) == RunEnd(s, p, 10)
      invariant i == Value(DigitsIn(s, p, next), 10)
      decreases |s| - next
    {
      OneMoreDigit(s, p, next, 10);
      RunStep(s, next, 10);
      i := i * 10 + (CharAt(s, next) - '0') as nat;
      next := next + 1;
    }
    RunStep(s, next, 10);
  }

  lemma NoDigitsRead(s: string, p: nat)
    ensures Value(DigitsIn(s, p, p), 10) == 0
  {}

  // ----- reading what was printed -----

  lemma DigitRoundTrip(d: nat, base: nat)
    requires d < base && (base == 10 || base == 16)
    ensures IsDigit(DigitChar(d, false), base) && DigitValue(DigitChar(d, false)) == d
  {}

  /** A text that ends, or goes on with a space, behind its digits. */
  lemma DigitsAreRead(s: string, i: nat, ds: seq<nat>, base: nat)
    requires base == 10 || base == 16
    requires forall k :: 0 <= k < |ds| ==> ds[k] < base
    requires i + |ds| <= |s| && s[i..i + |ds|] == Chars(ds, false)
    requires i + |ds| == |s| || !IsDigit(s[i + |ds|], base)
    ensures RunEnd(s, i, base) == i + |ds| && DigitsIn(s, i, i + |ds|) == ds
    ensures i + |ds| == |s| || s[i + |ds|] == ' ' ==> Factor(CharAt(s, i + |ds|)) == 1
  {
    hide DigitChar, DigitValue;
    forall k | 0 <= k < |ds| ensures IsDigit(CharAt(s, i + k), base) && DigitValue(CharAt(s, i + k)) == ds[k] {
      DigitRoundTrip(ds[k], base);
      assert s[i + k] == s[i..i + |ds|][k];
    }
    forall k | i <= k < i + |ds| ensures IsDigit(CharAt(s, k), base) {
      assert CharAt(s, k) == CharAt(s, i + (k - i));
    }
    RunIs(s, i, i + |ds|, base);
  }

  lemma RunIs(s: string, i: nat, e: nat, base: nat)
    requires i <= e && (forall k :: i <= k < e ==> IsDigit(CharAt(s, k), base)) && !IsDigit(CharAt(s, e), base)
    ensures RunEnd(s, i, base) == e
  {}

  /** What `number` writes when nothing stands before the sign: sign, prefix, digits, spaces. */
  lemma {:induction false} ReadsBack(sign: string, base: nat, ds: seq<nat>, after: string)
    requires base == 10 || base == 16
    requires sign == "" || sign == "-"
    requires ds != [] && forall k :: 0 <= k < |ds| ==> ds[k] < base
    requires after == "" || after[0] == ' '
    ensures var s := sign + (if base == 16 then "0x" else "") + Chars(ds, false) + after;
            Parsed(s) == S32(Value(ds, base) * if sign == "-" then -1 else 1)
  {
    hide Value, S32, RunEnd, Chars, DigitsIn;
    var prefix := if base == 16 then "0x" else "";
    var s := sign + prefix + Chars(ds, false) + after;
    var i := |sign| + |prefix|;
    assert s[i..i + |ds|] == Chars(ds, false);
    assert i + |ds| < |s| ==> s[i + |ds|] == after[0];
    DigitsAreRead(s, i, ds, base);
    FirstChars(s, |sign|, ds, base);
    assert sign == "-" ==> s[0] == '-';
    assert DigitsStart(s) == i && BaseRead(s) == base;
  }

  /** A `K` behind a number multiplies it by 2^10, and an `M` by 2^20. */
  lemma SuffixScales(ds: seq<nat>, c: char)
    requires ds != [] && (forall k :: 0 <= k < |ds| ==> ds[k] < 10) && (c == 'K' || c == 'M')
    ensures Parsed(Chars(ds, false) + [c]) == S32(Value(ds, 10) * Pow2(if c == 'K' then 10 else 20))
  {
    hide Value, S32, RunEnd, Chars, DigitsIn, Pow2;
    var s := Chars(ds, false) + [c];
    assert s[0..|ds|] == Chars(ds, false) && s[|ds|] == c;
    DigitsAreRead(s, 0, ds, 10);
    FirstChars(s, 0, ds, 10);
    Factors();
    assert DigitsStart(s) == 0 && BaseRead(s) == 10;
  }

  lemma Factors()
    ensures Factor('K') == Pow2(10) && Factor('M') == Pow2(20)
  {
    assert Pow2(5) == 32;
    assert Pow2(10) == 32 * 32;
    assert Pow2(15) == 32 * 32 * 32;
  }

  /** Digits are no sign, and no `x` follows them. */
  lemma FirstChars(s: string, n: nat, ds: seq<nat>, base: nat)
    requires base == 10 || base == 16
    requires ds != [] && forall k :: 0 <= k < |ds| ==> ds[k] < base
    requires base == 16 ==> n + 2 <= |s| && s[n] == '0' && s[n + 1] == 'x'
    requires base == 10 ==> n + |ds| <= |s| && s[n..n + |ds|] == Chars(ds, false) &&
                            (n + |ds| == |s| || s[n + |ds|] != 'x')
    ensures CharAt(s, n) != '-'
    ensures (CharAt(s, n) == '0' && CharAt(s, n + 1) == 'x') <==> base == 16
  {
    hide DigitChar;
    if base == 10 {
      DigitRoundTrip(ds[0], 10);
      assert s[n] == s[n..n + |ds|][0];
      if |ds| > 1 {
        DigitRoundTrip(ds[1], 10);
        assert s[n + 1] == s[n..n + |ds|][1];
      }
    }
  }

  function ZeroDigits(n: int): (ds: seq<nat>)
    ensures |ds| == if n > 0 then n else 0
    ensures forall k :: 0 <= k < |ds| ==> ds[k] == 0
  {
    if n <= 0 then [] else ZeroDigits(n - 1) + [0]
  }

  lemma {:induction false} LeadingZero(ds: seq<nat>, base: nat)
    ensures Value([0] + ds, base) == Value(ds, base)
  {
    hide Value;
    NoValue(base);
    if ds == [] {
      ValueNext([], 0, base);
      assert [0] + ds == [] + [0];
    } else {
      var front, last := ds[..|ds| - 1], ds[|ds| - 1];
      LeadingZero(front, base);
      ValueNext(front, last, base);
      ValueNext([0] + front, last, base);
      assert ds == front + [last] && [0] + ds == [0] + front + [last];
    }
  }

  lemma {:induction false} ZerosAreChars(n: int)
    ensures Repeat('0', n) == Chars(ZeroDigits(n), false)
    decreases n
  {
    if n > 0 {
      ZerosAreChars(n - 1);
    }
  }

  lemma {:induction false} ZerosAddNothing(n: int, ds: seq<nat>, base: nat)
    ensures Value(ZeroDigits(n) + ds, base) == Value(ds, base)
    decreases if n > 0 then n else 0
  {
    hide Value;
    if n > 0 {
      ZerosAddNothing(n - 1, [0] + ds, base);
      LeadingZero(ds, base);
      assert ZeroDigits(n) + ds == ZeroDigits(n - 1) + ([0] + ds);
    } else {
      assert ZeroDigits(n) + ds == ds;
    }
  }

  /** Zeros in front of a number are digits that add nothing. */
  lemma ZerosInFront(n: int, ds: seq<nat>, base: nat)
    requires forall k :: 0 <= k < |ds| ==> ds[k] < 36
    ensures Repeat('0', n) + Chars(ds, false) == Chars(ZeroDigits(n) + ds, false)
    ensures Value(ZeroDigits(n) + ds, base) == Value(ds, base)
  {
    hide Value, DigitChar;
    ZerosAreChars(n);
    ZerosAddNothing(n, ds, base);
    assert Chars(ZeroDigits(n), false) + Chars(ds, false) == Chars(ZeroDigits(n) + ds, false);
  }

  lemma {:induction false} RepeatFirst(c: char, n: int)
    ensures n > 0 ==> Repeat(c, n)[0] == c
    ensures n <= 0 ==> Repeat(c, n) == ""
    decreases n
  {
    if n > 1 {
      RepeatFirst(c, n - 1);
    }
  }

  /** What is left for padding. */
  function Pad(num: int, bits: nat, base: nat, size: int, precision: int, t: Flags): int
    requires bits > 0 && InLong(num, bits) && 2 <= base <= 36
  {
    size - |SignOf(num, t)| - |PrefixOf(base, t)| - Max(|DigitsOf(Magnitude(num, bits, t), base)|, precision)
  }

  /** Neither spaces nor a sign other than a minus stand before the number. */
  predicate StartsAtOnce(num: int, bits: nat, base: nat, size: int, precision: int, t: Flags)
    requires bits > 0 && InLong(num, bits) && 2 <= base <= 36
  {
    (t.left || t.zeropad || Pad(num, bits, base, size, precision, t) <= 0) && SignOf(num, t) in {"", "-"}
  }

  /** The digits with all the zeros in front of them, those of the padding included. */
  function PrintedDigits(num: int, bits: nat, base: nat, size: int, precision: int, t: Flags): (ds: seq<nat>)
    requires bits > 0 && InLong(num, bits) && 2 <= base <= 36
    ensures ds != [] && forall k :: 0 <= k < |ds| ==> ds[k] < base
  {
    var ds := DigitsOf(Magnitude(num, bits, t), base);
    ZeroDigits(if t.zeropad && !t.left then Pad(num, bits, base, size, precision, t) else 0) +
    (ZeroDigits(precision - |ds|) + ds)
  }

  lemma PrintedDigitsAre(num: int, bits: nat, base: nat, size: int, precision: int, t: Flags)
    requires bits > 0 && InLong(num, bits) && 2 <= base <= 36
    ensures var ds, m := PrintedDigits(num, bits, base, size, precision, t), DigitsOf(Magnitude(num, bits, t), base);
            && Value(ds, base) == Magnitude(num, bits, t)
            && Chars(ds, false) ==
               If(!t.left && t.zeropad, Repeat('0', Pad(num, bits, base, size, precision, t))) +
               (Repeat('0', precision - |m|) + Chars(m, false))
  {
    hide Value, Chars, Magnitude, DigitsOf, Pad, ZeroDigits, Repeat;
    var ds := DigitsOf(Magnitude(num, bits, t), base);
    var pad := Pad(num, bits, base, size, precision, t);
    DigitsHaveValue(Magnitude(num, bits, t), base);
    ZerosInFront(precision - |ds|, ds, base);
    ZerosInFront(if t.zeropad && !t.left then pad else 0, ZeroDigits(precision - |ds|) + ds, base);
    assert |Repeat('0', 0)| == 0;
  }

  lemma SmallDigitsHaveNoCase(ds: seq<nat>, upper: bool)
    requires forall k :: 0 <= k < |ds| ==> ds[k] < 10
    ensures Chars(ds, upper) == Chars(ds, false)
  {
    forall k | 0 <= k < |ds| ensures DigitChar(ds[k], upper) == DigitChar(ds[k], false) {
      NoCase(ds[k], upper);
    }
  }

  lemma NoCase(d: nat, upper: bool)
    requires d < 10
    ensures DigitChar(d, upper) == DigitChar(d, false)
  {}

  lemma ShapeOf(sign: string, prefix: string, pad: int, t: Flags, zeros: string, digits: string, after: string)
    requires t.left || t.zeropad || pad <= 0
    ensures Front(sign, prefix, pad, t) + zeros + digits + after ==
            sign + prefix + (If(!t.left && t.zeropad, Repeat('0', pad)) + (zeros + digits)) + after
  {
    hide Repeat;
    RepeatFirst(' ', pad);
    assert If(!t.left && !t.zeropad, Repeat(' ', pad)) == "";
  }

  lemma DigitCharIsDark(d: nat, upper: bool)
    requires d < 36
    ensures Dark(DigitChar(d, upper))
  {}

  predicate Dark(c: char) { c != ' ' && c != '+' }

  lemma FirstOfNumber(sign: string, prefix: string, zeros: string, digits: string, after: string)
    requires sign in {"", "-", "+", " "} && digits != "" && Dark(digits[0])
    requires (prefix != "" ==> prefix[0] == '0') && (zeros != "" ==> zeros[0] == '0')
    ensures var text := sign + prefix + (zeros + digits) + after;
            text != "" && (sign in {"", "-"} <==> Dark(text[0]))
  {
    var text := sign + prefix + (zeros + digits) + after;
    assert text[0] == if sign != "" then sign[0] else if prefix != "" then prefix[0]
                      else if zeros != "" then zeros[0] else digits[0];
  }

  lemma ZerosInFrontFirst(b: bool, m: int, n: int)
    ensures var zeros := If(b, Repeat('0', m)) + Repeat('0', n); zeros != "" ==> zeros[0] == '0'
  {
    hide Repeat;
    RepeatFirst('0', m);
    RepeatFirst('0', n);
  }

  /** The first character of a text made of these pieces. */
  lemma FirstOfPieces(sign: string, prefix: string, pad: int, t: Flags, n: int, digits: string, after: string)
    requires sign in {"", "-", "+", " "} && digits != "" && Dark(digits[0])
    requires prefix != "" ==> prefix[0] == '0'
    ensures var text := Front(sign, prefix, pad, t) + Repeat('0', n) + digits + after;
            text != "" && ((t.left || t.zeropad || pad <= 0) && sign in {"", "-"} <==> Dark(text[0]))
  {
    var zeros := Repeat('0', n);
    if t.left || t.zeropad || pad <= 0 {
      hide *;
      var more := If(!t.left && t.zeropad, Repeat('0', pad));
      ShapeOf(sign, prefix, pad, t, zeros, digits, after);
      ZerosInFrontFirst(!t.left && t.zeropad, pad, n);
      FirstOfNumber(sign, prefix, more + zeros, digits, after);
      assert more + (zeros + digits) == more + zeros + digits;
    } else {
      hide Repeat;
      RepeatFirst(' ', pad);
      assert (Front(sign, prefix, pad, t) + zeros + digits + after)[0] == Repeat(' ', pad)[0];
    }
  }

  /** Nothing stands before the number exactly when the first character of the text is neither a space nor a plus. */
  lemma StartsAtOnceExactlyWhen(num: int, bits: nat, base: nat, size: int, precision: int, t: Flags)
    requires bits > 0 && InLong(num, bits) && 2 <= base <= 36
    ensures var text := Text(num, bits, base, size, precision, t);
            text != "" && (StartsAtOnce(num, bits, base, size, precision, t) <==> Dark(text[0]))
  {
    hide Value, Magnitude, DigitsOf, Repeat, Text, Front, If, DigitChar;
    var ds := DigitsOf(Magnitude(num, bits, t), base);
    var pad := Pad(num, bits, base, size, precision, t);
    Pieces(num, bits, base, size, precision, |ds|, t);
    DigitCharIsDark(ds[0], t.uppercase);
    FirstOfPieces(SignOf(num, t), PrefixOf(base, t), pad, t, Max(|ds|, precision) - |ds|, Chars(ds, t.uppercase),
                  If(t.left, Repeat(' ', pad)));
  }

  /** The shape of a text that starts at once. */
  lemma TextShape(num: int, bits: nat, base: nat, size: int, precision: int, t: Flags)
    requires bits > 0 && InLong(num, bits) && (base == 10 || (base == 16 && t.hexPrep && !t.uppercase))
    requires StartsAtOnce(num, bits, base, size, precision, t)
    ensures var ds := PrintedDigits(num, bits, base, size, precision, t);
            && SignOf(num, t) in {"", "-"}
            && Text(num, bits, base, size, precision, t) ==
               SignOf(num, t) + (if base == 16 then "0x" else "") + Chars(ds, false) +
               If(t.left, Repeat(' ', Pad(num, bits, base, size, precision, t)))
  {
    hide Value, Chars, Magnitude, DigitsOf, PrintedDigits, Repeat, Text, Front, If;
    var digits := DigitsOf(Magnitude(num, bits, t), base);
    var pad := Pad(num, bits, base, size, precision, t);
    Pieces(num, bits, base, size, precision, |digits|, t);
    PrintedDigitsAre(num, bits, base, size, precision, t);
    if base == 10 {
      SmallDigitsHaveNoCase(digits, t.uppercase);
    }
    MaxRepeat(precision, |digits|);
    ShapeOf(SignOf(num, t), PrefixOf(base, t), pad, t, Repeat('0', precision - |digits|), Chars(digits, false),
            If(t.left, Repeat(' ', pad)));
  }

  lemma MaxRepeat(precision: int, n: nat)
    ensures Repeat('0', Max(n, precision) - n) == Repeat('0', precision - n)
  {}

  /** A text that does not start at once has no digits for `parseval`. */
  lemma NothingIsRead(s: string)
    requires CharAt(s, 0) == ' ' || CharAt(s, 0) == '+'
    ensures Parsed(s) == 0
  {}

  lemma ReadAsSigned(num: int, bits: nat, t: Flags)
    requires (bits == 32 || bits == 64) && InLong(num, bits) && -W31 <= num < W31
    ensures S32(Magnitude(num, bits, t) * if t.sign && num < 0 then -1 else 1) == num
  {
    hide Pow2, InLong;
    Pow2Wide(bits);
    if num < 0 && !t.sign {
      S32Shift(num, if bits == 32 then 1 else W32);
    }
  }

  lemma Pow2Wide(bits: nat)
    requires bits == 32 || bits == 64
    ensures Pow2(bits) == (if bits == 32 then 1 else W32) * W32
  {
    hide Pow2;
    Pow2Zero();
    Pow2Eight(0);
    Pow2Eight(8);
    Pow2Eight(16);
    Pow2Eight(24);
    Pow2Eight(32);
    Pow2Eight(40);
    Pow2Eight(48);
    Pow2Eight(56);
  }

  /**
   Printed in decimal, or as `0x` and lower-case digits, a 32-bit number is read back by `parseval` exactly when
   neither spaces nor a `+` stand before it, for all widths, precisions and flags. Everything else reads as 0.
   */
  lemma PrintedIsReadBackExactlyWhen(num: int, bits: nat, base: nat, size: int, precision: int, t: Flags)
    requires (bits == 32 || bits == 64) && InLong(num, bits) && -W31 <= num < W31
    requires base == 10 || (base == 16 && t.hexPrep && !t.uppercase)
    ensures Parsed(Text(num, bits, base, size, precision, t)) == num <==>
            num == 0 || StartsAtOnce(num, bits, base, size, precision, t)
  {
    hide Value, Chars, Magnitude, DigitsOf, PrintedDigits, Repeat, Text, Parsed, S32, Pad, InLong;
    if StartsAtOnce(num, bits, base, size, precision, t) {
      TextShape(num, bits, base, size, precision, t);
      PrintedDigitsAre(num, bits, base, size, precision, t);
      var pad := Pad(num, bits, base, size, precision, t);
      RepeatFirst(' ', pad);
      ReadsBack(SignOf(num, t), base, PrintedDigits(num, bits, base, size, precision, t), If(t.left, Repeat(' ', pad)));
      ReadAsSigned(num, bits, t);
    } else {
      StartsAtOnceExactlyWhen(num, bits, base, size, precision, t);
      NothingIsRead(Text(num, bits, base, size, precision, t));
    }
  }

  /** Nothing at all stands before the digits. */
  predicate DigitsFirst(num: int, bits: nat, size: int, precision: int, t: Flags)
    requires bits > 0 && InLong(num, bits)
  {
    StartsAtOnce(num, bits, 10, size, precision, t) && SignOf(num, t) == ""
  }

  lemma DigitsFirstShape(num: int, bits: nat, size: int, precision: int, t: Flags)
    requires bits > 0 && InLong(num, bits) && DigitsFirst(num, bits, size, precision, t)
    ensures var s := Text(num, bits, 10, size, precision, t);
            var e := RunEnd(s, 0, 10);
            && Value(DigitsIn(s, 0, e), 10) == Magnitude(num, bits, t)
            && forall k :: e <= k < |s| ==> s[k] == ' '
  {
    hide Value, Chars, DigitsOf, Magnitude, PrintedDigits, Repeat, Text, Pad, InLong;
    var ds := PrintedDigits(num, bits, 10, size, precision, t);
    var s := Text(num, bits, 10, size, precision, t);
    var pad := Pad(num, bits, 10, size, precision, t);
    TextShape(num, bits, 10, size, precision, t);
    PrintedDigitsAre(num, bits, 10, size, precision, t);
    AllSpaces(pad);
    assert s == Chars(ds, false) + If(t.left, Repeat(' ', pad));
    DigitsAreRead(s, 0, ds, 10);
  }

  lemma NoDigitsFirst(num: int, bits: nat, size: int, precision: int, t: Flags)
    requires bits > 0 && InLong(num, bits) && !DigitsFirst(num, bits, size, precision, t)
    ensures var s := Text(num, bits, 10, size, precision, t);
            RunEnd(s, 0, 10) == 0
  {
    hide Value, Chars, DigitsOf, Magnitude, PrintedDigits, Repeat, Text, Pad, InLong, RunEnd;
    var s := Text(num, bits, 10, size, precision, t);
    StartsAtOnceExactlyWhen(num, bits, 10, size, precision, t);
    if StartsAtOnce(num, bits, 10, size, precision, t) {
      TextShape(num, bits, 10, size, precision, t);
      assert s[0] == '-';
    }
    RunStep(s, 0, 10);
  }

  /**
   The digits of a decimal number are read back by `skip_atoi` exactly when nothing stands before them, or the number
   is 0. It stops right behind them, or where it began.
   */
  lemma SkipAtoiReadsBackExactlyWhen(num: int, bits: nat, size: int, precision: int, t: Flags)
    requires bits > 0 && InLong(num, bits)
    ensures var s := Text(num, bits, 10, size, precision, t);
            var e := RunEnd(s, 0, 10);
            && (Value(DigitsIn(s, 0, e), 10) == Magnitude(num, bits, t) <==>
                  num == 0 || DigitsFirst(num, bits, size, precision, t))
            && (DigitsFirst(num, bits, size, precision, t) ==> forall k :: e <= k < |s| ==> s[k] == ' ')
            && (!DigitsFirst(num, bits, size, precision, t) ==> e == 0)
  {
    hide Value, Text, RunEnd, DigitsFirst;
    if DigitsFirst(num, bits, size, precision, t) {
      DigitsFirstShape(num, bits, size, precision, t);
    } else {
      NoDigitsFirst(num, bits, size, precision, t);
      NoDigitsRead(Text(num, bits, 10, size, precision, t), 0);
    }
  }

  lemma {:induction false} AllSpaces(n: int)
    ensures forall k :: 0 <= k < |Repeat(' ', n)| ==> Repeat(' ', n)[k] == ' '
    decreases if n > 0 then n else 0
  {
    if n > 0 {
      AllSpaces(n - 1);
    }
  }
}
