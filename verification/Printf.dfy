/**
 Printing integers with `number` of `ee_printf.c`, and reading them with `parseval` of `core_util.c` and with
 `skip_atoi`. A C string is the sequence of its characters before the terminator.
 */
module Printf {
  import opened Numbers

  datatype Flags = Flags(zeropad: bool, sign: bool, plus: bool, space: bool, left: bool, hexPrep: bool, uppercase: bool)

  /** What `number` returns: a position in the buffer, or a null pointer. */
  datatype Pointer = Null | At(pos: nat)

  // ----- the text of a number -----

  /** The digits of a number, the highest one first. */
  function DigitsOf(m: nat, base: nat): (ds: seq<nat>)
    requires base >= 2
    ensures ds != [] && forall i :: 0 <= i < |ds| ==> ds[i] < base
    decreases m
  {
    if m < base then [m]
    else
      QuotientIsSmaller(m, base);
      DigitsOf(m / base, base) + [m % base]
  }

  lemma QuotientIsSmaller(m: nat, base: nat)
    requires base >= 2 && m > 0
    ensures 0 <= m / base <= m / 2 < m
  {
    var q := m / base;
    DivBounds(m, base);
    assert 2 * q <= q * base by { MulMonotone(2, base, q); }
  }

  function Value(ds: seq<nat>, base: nat): nat {
    if ds == [] then 0 else Value(ds[..|ds| - 1], base) * base + ds[|ds| - 1]
  }

  lemma ValueNext(ds: seq<nat>, d: nat, base: nat)
    ensures Value(ds + [d], base) == Value(ds, base) * base + d
  {
    assert (ds + [d])[..|ds|] == ds;
  }

  lemma {:induction false} DigitsHaveValue(m: nat, base: nat)
    requires base >= 2
    ensures Value(DigitsOf(m, base), base) == m
    decreases m
  {
    hide Value;
    if m < base {
      ValueNext([], m, base);
      NoValue(base);
      assert [] + [m] == [m];
    } else {
      QuotientIsSmaller(m, base);
      DivBounds(m, base);
      hide DigitsOf;
      DigitsNext(m, base);
      DigitsHaveValue(m / base, base);
      ValueNext(DigitsOf(m / base, base), m % base, base);
    }
  }

  lemma DigitsNext(m: nat, base: nat)
    requires 2 <= base <= m
    ensures 0 <= m / base < m && 0 <= m % base && DigitsOf(m, base) == DigitsOf(m / base, base) + [m % base]
  {
    QuotientIsSmaller(m, base);
  }

  lemma NoValue(base: nat)
    ensures Value([], base) == 0
  {}

  /** No digit is wasted: only the number 0 begins with the digit 0. */
  lemma {:induction false} NoLeadingZero(m: nat, base: nat)
    requires base >= 2
    ensures DigitsOf(m, base)[0] == 0 <==> m == 0
    decreases m
  {
    if m >= base {
      QuotientIsSmaller(m, base);
      NoLeadingZero(m / base, base);
      assert m / base > 0 by { DivBounds(m, base); }
    }
  }

  const DIGITS := "0123456789abcdefghijklmnopqrstuvwxyz"
  const UPPER_DIGITS := "0123456789ABCDEFGHIJKLMNOPQRSTUVWXYZ"

  /** The digit `d`: a decimal digit, or the letter that many places behind `a`. */
  function DigitChar(d: nat, upper: bool): char
    requires d < 36
  {
    if d < 10 then '0' + d as char else (if upper then 'A' else 'a') + (d - 10) as char
  }

  /** The two tables hold the digits in order. */
  lemma DigitTable(d: nat, upper: bool)
    requires d < 36
    ensures |DIGITS| == |UPPER_DIGITS| == 36
    ensures (if upper then UPPER_DIGITS else DIGITS)[d] == DigitChar(d, upper)
  {}

  function Chars(ds: seq<nat>, upper: bool): (s: string)
    requires forall i :: 0 <= i < |ds| ==> ds[i] < 36
    ensures |s| == |ds|
  {
    seq(|ds|, i requires 0 <= i < |ds| => DigitChar(ds[i], upper))
  }

  function Repeat(c: char, n: int): (s: string)
    ensures |s| == if n > 0 then n else 0
  {
    if n <= 0 then "" else Repeat(c, n - 1) + [c]
  }

  /** The number that is printed: without SIGN a negative one is read as unsigned. */
  function Magnitude(num: int, bits: nat, t: Flags): nat
    requires num + Pow2(bits) >= 0
  {
    if num >= 0 then num else if t.sign then -num else num + Pow2(bits)
  }

  function SignOf(num: int, t: Flags): string {
    if !t.sign then "" else if num < 0 then "-" else if t.plus then "+" else if t.space then " " else ""
  }

  function PrefixOf(base: nat, t: Flags): string {
    if t.hexPrep && base == 16 then "0x" else if t.hexPrep && base == 8 then "0" else ""
  }

  /** The digits, with zeros in front up to the precision. */
  function BodyOf(m: nat, base: nat, precision: int, upper: bool): string
    requires 2 <= base <= 36
  {
    var ds := DigitsOf(m, base);
    Repeat('0', precision - |ds|) + Chars(ds, upper)
  }

  function Padded(sign: string, prefix: string, body: string, size: int, t: Flags): string {
    var pad := size - |sign| - |prefix| - |body|;
    if t.left then sign + prefix + body + Repeat(' ', pad)
    else if t.zeropad then sign + prefix + Repeat('0', pad) + body
    else Repeat(' ', pad) + sign + prefix + body
  }

  predicate InLong(num: int, bits: nat)
    requires bits > 0
  {
    num + Pow2(bits - 1) >= 0 && num < Pow2(bits - 1)
  }

  function Text(num: int, bits: nat, base: nat, size: int, precision: int, t: Flags): string
    requires bits > 0 && InLong(num, bits) && 2 <= base <= 36
  {
    Padded(SignOf(num, t), PrefixOf(base, t), BodyOf(Magnitude(num, bits, t), base, precision, t.uppercase), size, t)
  }

  function Max(a: int, b: int): int { if a < b then b else a }

  /** The length of the text: the width, or what the number needs if that is more. */
  lemma TextLength(num: int, bits: nat, base: nat, size: int, precision: int, t: Flags)
    requires bits > 0 && InLong(num, bits) && 2 <= base <= 36
    ensures |Text(num, bits, base, size, precision, t)| ==
            Max(size, |SignOf(num, t)| + |PrefixOf(base, t)| +
                      Max(|DigitsOf(Magnitude(num, bits, t), base)|, precision))
  {
    hide DigitsOf, Repeat, SignOf, PrefixOf, Magnitude;
  }

  // ----- writing -----

  /** No sign. */
  const NOTHING: char := 0 as char

  function SignText(sign: char): string { if sign == NOTHING then "" else [sign] }

  /** The buffer `now` is `was` with `out` written at `at`. */
  ghost predicate Written(was: string, now: string, at: nat, out: string) {
    at + |out| <= |was| && now == was[..at] + out + was[at + |out|..]
  }

  lemma WriteOne(was: string, now: string, at: nat, out: string, c: char)
    requires Written(was, now, at, out) && at + |out| < |was|
    ensures Written(was, now[at + |out| := c], at, out + [c])
  {}

  /** One character, `size0` times; the counter ends below zero as in the source. */
  method PutMany(str: array<char>, pos: nat, size0: int, c: char, ghost was: string, ghost at: nat, ghost out: string)
    returns (end: nat, size: int)
    requires Written(was, str[..], at, out) && pos == at + |out| && pos + size0 <= str.Length
    modifies str
    ensures size == if size0 > 0 then -1 else size0 - 1
    ensures Written(was, str[..], at, out + Repeat(c, size0)) && end == pos + |Repeat(c, size0)|
  {
    end, size := pos, size0;
    assert out + Repeat(c, 0) == out;
    while size > 0
      invariant pos <= end && Written(was, str[..], at, out + Repeat(c, end - pos))
      invariant size0 > 0 ==> 0 <= size && end + size == pos + size0
      invariant size0 <= 0 ==> size == size0 && end == pos
      decreases size
    {
      size := size - 1;
      WriteOne(was, str[..], at, out + Repeat(c, end - pos), c);
      assert out + Repeat(c, end - pos) + [c] == out + Repeat(c, end + 1 - pos);
      str[end] := c;
      end := end + 1;
    }
    size := size - 1;
  }

  /** The digit loop: `tmp` receives the digits, the lowest one first. */
  method PutDigits(tmp: array<char>, num0: nat, bits: nat, base: nat, upper: bool) returns (i: nat)
    requires 2 <= base <= 36 && num0 < Pow2(bits) && bits <= 64 && tmp.Length == 66
    modifies tmp
    ensures i <= 66 && Chars(DigitsOf(num0, base), upper) == Reversed(tmp[..i])
  {
    hide *;
    i := 0;
    if num0 == 0 {
      DigitOfZero(base, upper);
      tmp[0] := '0';
      i := 1;
      ReverseOne(tmp[..1]);
    } else {
      var num: nat := num0;
      ghost var text := Chars(DigitsOf(num0, base), upper);
      ReverseNothing();
      assert tmp[..0] == [];
      while num != 0
        invariant i <= bits && num < Pow2(bits - i)
        invariant text == if num > 0 then Chars(DigitsOf(num, base), upper) + Reversed(tmp[..i]) else Reversed(tmp[..i])
        decreases num
      {
        QuotientIsSmaller(num, base);
        DigitStep(num, base, upper);
        HalfAtMost(num, num / base, bits - i);
        DigitTable(num % base, upper);
        var dig := if upper then UPPER_DIGITS else DIGITS;
        tmp[i] := dig[num % base];
        ReverseStep(tmp[..i], tmp[i]);
        assert tmp[..i + 1] == tmp[..i] + [tmp[i]];
        num := num / base;
        i := i + 1;
      }
    }
  }

  lemma DigitOfZero(base: nat, upper: bool)
    requires 2 <= base <= 36
    ensures Chars(DigitsOf(0, base), upper) == "0"
  {}

  lemma DigitStep(m: nat, base: nat, upper: bool)
    requires 2 <= base <= 36 && m > 0
    ensures 0 <= m % base < base
    ensures 0 <= m / base
    ensures Chars(DigitsOf(m, base), upper) ==
            (if m / base > 0 then Chars(DigitsOf(m / base, base), upper) else []) + [DigitChar(m % base, upper)]
  {
    hide DigitChar, Chars;
    QuotientIsSmaller(m, base);
    DivBounds(m, base);
    CharsOne(m % base, upper);
    if m < base {
      DivModUnique(m, base, 0, m);
    } else {
      assert m / base > 0;
      CharsNext(DigitsOf(m / base, base), m % base, upper);
    }
  }

  lemma CharsOne(d: nat, upper: bool)
    requires d < 36
    ensures Chars([d], upper) == [DigitChar(d, upper)]
  {
    hide DigitChar;
  }

  lemma CharsNext(ds: seq<nat>, d: nat, upper: bool)
    requires d < 36 && forall i :: 0 <= i < |ds| ==> ds[i] < 36
    ensures Chars(ds + [d], upper) == Chars(ds, upper) + [DigitChar(d, upper)]
  {
    hide DigitChar;
  }

  lemma HalfAtMost(m: nat, q: nat, bits: nat)
    requires 0 < m < Pow2(bits) && q <= m / 2
    ensures bits > 0 && q < Pow2(bits - 1)
  {}

  lemma ReverseNothing()
    ensures Reversed([]) == []
  {}

  lemma ReverseOne(s: string)
    requires |s| == 1
    ensures Reversed(s) == s
  {}

  lemma ReverseStep(s: string, c: char)
    ensures Reversed(s + [c]) == [c] + Reversed(s)
  {}

  function Reversed(s: string): (r: string)
    ensures |r| == |s|
  {
    seq(|s|, i requires 0 <= i < |s| => s[|s| - 1 - i])
  }

  /** The collected digits, the last one first. */
  method PutReversed(str: array<char>, pos: nat, tmp: array<char>, n: nat, ghost was: string, ghost at: nat,
                     ghost out: string)
    returns (end: nat)
    requires Written(was, str[..], at, out) && pos == at + |out| && pos + n <= str.Length
    requires n <= tmp.Length && tmp != str
    modifies str
    ensures Written(was, str[..], at, out + Reversed(tmp[..n])) && end == pos + n
  {
    ghost var r := Reversed(tmp[..n]);
    end := pos;
    var i: int := n;
    assert out + r[..0] == out;
    while i > 0
      invariant 0 <= i <= n && end == pos + n - i
      invariant Written(was, str[..], at, out + r[..n - i])
    {
      i := i - 1;
      WriteOne(was, str[..], at, out + r[..n - i - 1], tmp[i]);
      assert out + r[..n - i - 1] + [tmp[i]] == out + r[..n - i];
      str[end] := tmp[i];
      end := end + 1;
    }
    assert r[..n] == r;
  }

  method Put(str: array<char>, pos: nat, c: char, ghost was: string, ghost at: nat, ghost out: string)
    returns (end: nat)
    requires Written(was, str[..], at, out) && pos == at + |out| && pos < str.Length
    modifies str
    ensures Written(was, str[..], at, out + [c]) && end == pos + 1
  {
    WriteOne(was, str[..], at, out, c);
    str[pos] := c;
    end := pos + 1;
  }

  /** `-num` in a `long`: the lowest value is its own negation. */
  function NegateLong(num: int, bits: nat): int
    requires bits > 0
  {
    if num + Pow2(bits - 1) == 0 then num else -num
  }

  /** The number converted to `unsigned long`. */
  function ToUnsigned(num: int, bits: nat): (u: nat)
    requires bits > 0 && InLong(num, bits)
    ensures u < Pow2(bits)
  {
    if num < 0 then num + Pow2(bits) else num
  }

  lemma MagnitudeIsUnsigned(num: int, bits: nat, t: Flags)
    requires bits > 0 && InLong(num, bits)
    ensures num < 0 && t.sign ==> InLong(NegateLong(num, bits), bits) &&
                                  ToUnsigned(NegateLong(num, bits), bits) == Magnitude(num, bits, t)
    ensures num >= 0 || !t.sign ==> ToUnsigned(num, bits) == Magnitude(num, bits, t)
    ensures Magnitude(num, bits, t) < Pow2(bits)
  {}

  function If(b: bool, s: string): string { if b then s else "" }

  /** The text in front of the digits. */
  function Front(sign: string, prefix: string, pad: int, t: Flags): string {
    If(!t.left && !t.zeropad, Repeat(' ', pad)) + sign + prefix + If(!t.left && t.zeropad, Repeat('0', pad))
  }

  /** The pieces of the text, in the order in which they are written. */
  lemma Pieces(num: int, bits: nat, base: nat, size: int, precision: int, n: nat, t: Flags)
    requires bits > 0 && InLong(num, bits) && 2 <= base <= 36
    requires n == |Chars(DigitsOf(Magnitude(num, bits, t), base), t.uppercase)|
    ensures var pad := size - |SignOf(num, t)| - |PrefixOf(base, t)| - Max(n, precision);
            var front := Front(SignOf(num, t), PrefixOf(base, t), pad, t);
            var zeros := Repeat('0', Max(n, precision) - n);
            var digits := Chars(DigitsOf(Magnitude(num, bits, t), base), t.uppercase);
            var after := If(t.left, Repeat(' ', pad));
            Text(num, bits, base, size, precision, t) == front + zeros + digits + after
  {
    hide DigitsOf, SignOf, PrefixOf, Magnitude, Chars;
    assert precision <= n ==> Repeat('0', precision - n) == Repeat('0', 0) == "";
    assert "" + SignOf(num, t) == SignOf(num, t);
  }

  /** The first part of `number`: the sign, the magnitude and the width that they and the prefix leave. */
  method TakeSign(num0: int, bits: nat, base: int, size0: int, t: Flags) returns (sign: char, num: int, size: int)
    requires bits > 0 && InLong(num0, bits) && 2 <= base <= 36
    ensures InLong(num, bits) && ToUnsigned(num, bits) == Magnitude(num0, bits, t)
    ensures SignOf(num0, t) == SignText(sign)
    ensures size == size0 - |SignOf(num0, t)| - |PrefixOf(base, t)|
  {
    hide Magnitude, ToUnsigned, NegateLong, InLong;
    MagnitudeIsUnsigned(num0, bits, t);
    num, size, sign := num0, size0, NOTHING;
    if t.sign {
      if num < 0 {
        sign := '-';
        num := NegateLong(num, bits);
        size := size - 1;
      } else if t.plus {
        sign := '+';
        size := size - 1;
      } else if t.space {
        sign := ' ';
        size := size - 1;
      }
    }
    if t.hexPrep {
      if base == 16 {
        size := size - 2;
      } else if base == 8 {
        size := size - 1;
      }
    }
  }

  method PutHead(str: array<char>, pos: nat, sign: char, base: nat, t: Flags, ghost was: string, ghost at: nat,
                 ghost out: string)
    returns (end: nat)
    requires Written(was, str[..], at, out) && pos == at + |out|
    requires pos + |SignText(sign)| + |PrefixOf(base, t)| <= str.Length
    modifies str
    ensures var s := SignText(sign);
            Written(was, str[..], at, out + s + PrefixOf(base, t)) && end == pos + |s| + |PrefixOf(base, t)|
  {
    hide Written;
    end := pos;
    ghost var s := SignText(sign);
    assert out + "" == out;
    if sign != NOTHING {
      end := Put(str, end, sign, was, at, out);
    }
    assert out + s + "" == out + s;
    if t.hexPrep {
      if base == 8 {
        end := Put(str, end, '0', was, at, out + s);
      } else if base == 16 {
        end := Put(str, end, '0', was, at, out + s);
        end := Put(str, end, 'x', was, at, out + s + ['0']);
        assert out + s + ['0'] + ['x'] == out + s + "0x";
      }
    }
  }

  /** `PutMany` under a condition. */
  method PutIf(put: bool, str: array<char>, pos: nat, size0: int, c: char, ghost was: string, ghost at: nat,
               ghost out: string)
    returns (end: nat, size: int)
    requires Written(was, str[..], at, out) && pos == at + |out| && (put ==> pos + size0 <= str.Length)
    modifies str
    ensures size == if !put then size0 else if size0 > 0 then -1 else size0 - 1
    ensures var s := If(put, Repeat(c, size0));
            Written(was, str[..], at, out + s) && end == pos + |s|
  {
    hide Written, Repeat;
    end, size := pos, size0;
    assert out + "" == out;
    if put {
      end, size := PutMany(str, pos, size0, c, was, at, out);
    }
  }

  lemma MiddlePad(t: Flags, pad: int, size: int, c: char)
    requires size == if t.left || t.zeropad then pad else if pad > 0 then -1 else pad - 1
    requires c == if t.zeropad && !t.left then '0' else ' '
    ensures If(!t.left, Repeat(c, size)) == If(!t.left && t.zeropad, Repeat('0', pad))
  {}

  lemma LastPad(t: Flags, pad: int, size: int)
    requires if t.left then size == pad else size < 0
    ensures Repeat(' ', size) == If(t.left, Repeat(' ', pad))
  {}

  /** The middle part of `number`: padding, sign, prefix and padding; `size` is what is left for the right. */
  method PutFront(str: array<char>, at: nat, pad: int, sign: char, base: nat, t: Flags, ghost was: string)
    returns (end: nat, size: int)
    requires was == str[..]
    requires at + |Front(SignText(sign), PrefixOf(base, t), pad, t)| <= str.Length
    modifies str
    ensures var front := Front(SignText(sign), PrefixOf(base, t), pad, t);
            Written(was, str[..], at, front) && end == at + |front|
    ensures if t.left then size == pad else size < 0
  {
    hide Written, Repeat, PrefixOf;
    NothingWritten(was, at);
    var zeropad := t.zeropad && !t.left;
    var c := if zeropad then '0' else ' ';
    ghost var before := If(!t.left && !t.zeropad, Repeat(' ', pad));
    end, size := PutIf(!(zeropad || t.left), str, at, pad, ' ', was, at, "");
    assert "" + before == before;
    end := PutHead(str, end, sign, base, t, was, at, before);
    MiddlePad(t, pad, size, c);
    end, size := PutIf(!t.left, str, end, size, c, was, at, before + SignText(sign) + PrefixOf(base, t));
  }

  /** The last part of `number`: zeros up to the precision, the digits, and the padding on the right. */
  method PutBack(str: array<char>, pos: nat, zeros: int, tmp: array<char>, i: nat, size0: int,
                 ghost was: string, ghost at: nat, ghost out: string)
    returns (end: nat)
    requires Written(was, str[..], at, out) && pos == at + |out| && i <= tmp.Length && tmp != str
    requires pos + |Repeat('0', zeros)| + i + |Repeat(' ', size0)| <= str.Length
    modifies str
    ensures var back := out + Repeat('0', zeros) + Reversed(tmp[..i]) + Repeat(' ', size0);
            Written(was, str[..], at, back) && end == at + |back|
  {
    hide Written, Repeat, Reversed;
    var size;
    end, size := PutMany(str, pos, zeros, '0', was, at, out);
    end := PutReversed(str, end, tmp, i, was, at, out + Repeat('0', zeros));
    end, size := PutMany(str, end, size0, ' ', was, at, out + Repeat('0', zeros) + Reversed(tmp[..i]));
  }

  /** `number`, for a base that it accepts. */
  method PutNumber(str: array<char>, at: nat, num0: int, bits: nat, base: nat, size0: int, precision0: int, t: Flags)
    returns (end: nat)
    requires 0 < bits <= 64 && InLong(num0, bits) && 2 <= base <= 36
    requires at + |Text(num0, bits, base, size0, precision0, t)| <= str.Length
    modifies str
    ensures var text := Text(num0, bits, base, size0, precision0, t);
            Written(old(str[..]), str[..], at, text) && end == at + |text|
  {
    hide DigitsOf, Magnitude, Chars, Text, ToUnsigned, InLong, Repeat, Written, SignOf, PrefixOf, Front, Reversed;
    hide Pow2, If, SignText;
    MagnitudeIsUnsigned(num0, bits, t);
    var sign, num, size := TakeSign(num0, bits, base, size0, t);
    var tmp := new char[66];
    ghost var was := str[..];
    var i := PutDigits(tmp, ToUnsigned(num, bits), bits, base, t.uppercase);
    var precision := if i > precision0 then i else precision0;
    size := size - precision;
    ghost var pad := size;
    Pieces(num0, bits, base, size0, precision0, i, t);
    end, size := PutFront(str, at, size, sign, base, t, was);
    LastPad(t, pad, size);
    end := PutBack(str, end, precision - i, tmp, i, size, was, at, Front(SignOf(num0, t), PrefixOf(base, t), pad, t));
  }

  /** `number` */
  method Number(str: array<char>, at: nat, num: int, bits: nat, base: int, size: int, precision: int, t: Flags)
    returns (r: Pointer)
    requires 0 < bits <= 64 && InLong(num, bits)
    requires 2 <= base <= 36 ==> at + |Text(num, bits, base, size, precision, t)| <= str.Length
    modifies str
    ensures base < 2 || base > 36 ==> r == Null && str[..] == old(str[..])
    ensures 2 <= base <= 36 ==>
              var text := Text(num, bits, base, size, precision, t);
              r == At(at + |text|) && Written(old(str[..]), str[..], at, text)
  {
    hide *;
    if base < 2 || base > 36 {
      return Null;
    }
    var end := PutNumber(str, at, num, bits, base, size, precision, t);
    return At(end);
  }

  lemma NothingWritten(was: string, at: nat)
    requires at <= |was|
    ensures Written(was, was, at, "")
  {}
}
