/**
 `core_init_state`: the block that the state machine benchmark scans, and what the benchmark makes of it.
 */
module StateInit {
  import opened Numbers
  import opened Sequences
  import opened StateMachine
  import opened StateBench

  const INTEGERS: seq<seq<U8>> := [
    [0x35, 0x30, 0x31, 0x32],
    [0x31, 0x32, 0x33, 0x34],
    [0x2d, 0x38, 0x37, 0x34],
    [0x2b, 0x31, 0x32, 0x32]]  // 5012  1234  -874  +122

  const FLOATS: seq<seq<U8>> := [
    [0x33, 0x35, 0x2e, 0x35, 0x34, 0x34, 0x30, 0x30],
    [0x2e, 0x31, 0x32, 0x33, 0x34, 0x35, 0x30, 0x30],
    [0x2d, 0x31, 0x31, 0x30, 0x2e, 0x37, 0x30, 0x30],
    [0x2b, 0x30, 0x2e, 0x36, 0x34, 0x34, 0x30, 0x30]]  // 35.54400  .1234500  -110.700  +0.64400

  const SCIENTIFICS: seq<seq<U8>> := [
    [0x35, 0x2e, 0x35, 0x30, 0x30, 0x65, 0x2b, 0x33],
    [0x2d, 0x2e, 0x31, 0x32, 0x33, 0x65, 0x2d, 0x32],
    [0x2d, 0x38, 0x37, 0x65, 0x2b, 0x38, 0x33, 0x32],
    [0x2b, 0x30, 0x2e, 0x36, 0x65, 0x2d, 0x31, 0x32]]  // 5.500e+3  -.123e-2  -87e+832  +0.6e-12

  const ERRORS: seq<seq<U8>> := [
    [0x54, 0x30, 0x2e, 0x33, 0x65, 0x2d, 0x31, 0x46],
    [0x2d, 0x54, 0x2e, 0x54, 0x2b, 0x2b, 0x54, 0x71],
    [0x31, 0x54, 0x33, 0x2e, 0x34, 0x65, 0x34, 0x7a],
    [0x33, 0x34, 0x2e, 0x30, 0x65, 0x2d, 0x54, 0x5e]]  // T0.3e-1F  -T.T++Tq  1T3.4e4z  34.0e-T^

  // ----- the block -----

  type S16 = x: int | -0x8000 <= x < 0x8000

  /** The pattern a seed selects: the three low bits give the table, and the two bits above them the row. */
  function Pattern(seed: int): (r: seq<U8>)
    ensures 0 < |r| <= 8
  {
    var row := seed / 8 % 4;
    match seed % 8
    case 0 | 1 | 2 => INTEGERS[row]
    case 3 | 4 => FLOATS[row]
    case 5 | 6 => SCIENTIFICS[row]
    case _ => ERRORS[row]
  }

  /** The fields that fit into `room` bytes with one to spare; `next` is chosen already, unless it is empty. */
  function Fields(room: int, seed: int, next: seq<U8>): seq<U8>
    decreases room, if next == [] then 1 else 0
  {
    if |next| + 1 >= room then []
    else if next == [] then Fields(room, seed + 1, Pattern(seed + 1))
    else next + [COMMA] + Fields(room - |next| - 1, seed + 1, Pattern(seed + 1))
  }

  function Zeros(n: nat): seq<U8> { seq(n, i => NUL) }

  function Block(size: nat, seed: int): (r: seq<U8>)
    requires size > 0
    ensures |r| == size
  {
    FieldsFit(size - 1, seed, []);
    var f := Fields(size - 1, seed, []);
    f + Zeros(size - |f|)
  }

  lemma {:induction false} FieldsFit(room: int, seed: int, next: seq<U8>)
    ensures |Fields(room, seed, next)| < room || Fields(room, seed, next) == []
    decreases room, if next == [] then 1 else 0
  {
    hide Pattern;
    if |next| + 1 < room {
      FieldsFit(if next == [] then room else room - |next| - 1, seed + 1, Pattern(seed + 1));
    }
  }

  /** Writes one field and its comma at `at`. */
  method WriteField(p: array<U8>, at: nat, buf: seq<U8>)
    requires at + |buf| < p.Length
    modifies p
    ensures p[..] == old(p[..at]) + (buf + [COMMA]) + old(p[at + |buf| + 1..])
  {
    ghost var was := p[..];
    for i := 0 to |buf|
      invariant p[..] == was[..at] + buf[..i] + was[at + i..]
    {
      OneMore(was, at, buf, i);
      p[at + i] := buf[i];
    }
    p[at + |buf|] := COMMA;
  }

  method WriteZeros(p: array<U8>, from: nat, to: nat)
    requires from <= to <= p.Length
    modifies p
    ensures p[..] == old(p[..from]) + Zeros(to - from) + old(p[to..])
  {
    ghost var was := p[..];
    for i := from to to
      invariant p[..] == was[..from] + Zeros(i - from) + was[i..]
    {
      p[i] := NUL;
    }
  }

  /** `core_init_state`. Up to this size no sum exceeds 32 bits. */
  method CoreInitState(size: nat, seed0: S16, p: array<U8>)
    requires 0 < size <= W32 - 8 && size <= p.Length
    modifies p
    ensures p[..] == Block(size, seed0) + old(p[size..])
  {
    hide *;
    var total, seed: S16, buf: seq<U8> := 0, seed0, [];
    BlockIs(size, seed0);
    while total + |buf| + 1 < size - 1
      invariant 0 <= total && (total == 0 || total < size - 1)
      invariant p[..total] + Fields(size - 1 - total, seed, buf) == Fields(size - 1, seed0, [])
      invariant p[size..] == old(p[size..])
      decreases size - total, if buf == [] then 1 else 0
    {
      FieldsStep(size - 1 - total, seed, buf);
      ghost var before, rest := p[..total], p[size..];
      if |buf| > 0 {
        WriteField(p, total, buf);
        assert p[..total + |buf| + 1] == before + (buf + [COMMA]);
        assert p[size..] == rest;
        total := total + |buf| + 1;
      }
      FieldsWrap(size - 1 - total, seed + 1, Pattern(seed + 1));
      seed := if seed == 0x7fff then -0x8000 else seed + 1;
      PatternIs(seed);
      FourRows();
      var row := seed / 8 % 4;
      match seed % 8
      case 0 | 1 | 2 => buf := INTEGERS[row];
      case 3 | 4 => buf := FLOATS[row];
      case 5 | 6 => buf := SCIENTIFICS[row];
      case _ => buf := ERRORS[row];
    }
    FieldsStep(size - 1 - total, seed, buf);
    assert p[..total] == Fields(size - 1, seed0, []);
    WriteZeros(p, total, size);
  }

  lemma FourRows()
    ensures |INTEGERS| == |FLOATS| == |SCIENTIFICS| == |ERRORS| == 4
  {}

  lemma PatternIs(seed: int)
    ensures seed % 8 < 3 ==> Pattern(seed) == INTEGERS[seed / 8 % 4]
    ensures 3 <= seed % 8 < 5 ==> Pattern(seed) == FLOATS[seed / 8 % 4]
    ensures 5 <= seed % 8 < 7 ==> Pattern(seed) == SCIENTIFICS[seed / 8 % 4]
    ensures seed % 8 == 7 ==> Pattern(seed) == ERRORS[seed / 8 % 4]
  {}

  /** A seed that wraps around selects the same patterns as one that does not. */
  lemma PatternWraps(seed: int)
    ensures Pattern(seed - 0x1_0000) == Pattern(seed)
  {
    assert (seed - 0x1_0000) / 8 == seed / 8 - 0x2000;
  }

  lemma {:induction false} FieldsWrap(room: int, seed: int, next: seq<U8>)
    ensures Fields(room, seed - 0x1_0000, next) == Fields(room, seed, next)
    ensures Pattern(seed - 0x1_0000) == Pattern(seed)
    decreases room, if next == [] then 1 else 0
  {
    hide Pattern;
    PatternWraps(seed);
    PatternWraps(seed + 1);
    if |next| + 1 < room {
      FieldsWrap(if next == [] then room else room - |next| - 1, seed + 1, Pattern(seed + 1));
    }
  }

  lemma BlockIs(size: nat, seed: int)
    requires size > 0
    ensures var f := Fields(size - 1, seed, []);
            |f| <= size && Block(size, seed) == f + Zeros(size - |f|)
  {
    FieldsFit(size - 1, seed, []);
  }

  lemma FieldsStep(room: int, seed: int, next: seq<U8>)
    ensures |next| + 1 >= room ==> Fields(room, seed, next) == []
    ensures |next| + 1 < room ==>
              Fields(room, seed, next) ==
              if next == [] then Fields(room, seed + 1, Pattern(seed + 1))
              else next + [COMMA] + Fields(room - |next| - 1, seed + 1, Pattern(seed + 1))
  {
    hide Pattern;
  }

  // ----- what the block contains -----

  /** No terminator, no comma and no `9`. */
  predicate Plain(w: seq<U8>) {
    forall i :: 0 <= i < |w| ==> w[i] != NUL && w[i] != COMMA && w[i] != 0x39 && w[i] < 0x80
  }

  lemma PatternsArePlain(seed: int)
    ensures Plain(Pattern(seed))
  {
    assert forall k :: 0 <= k < 4 ==>
      Plain(INTEGERS[k]) && Plain(FLOATS[k]) && Plain(SCIENTIFICS[k]) && Plain(ERRORS[k]);
  }

  /** The fields hold nothing but plain bytes and commas. */
  lemma {:induction false} FieldBytes(room: int, seed: int, next: seq<U8>)
    requires Plain(next)
    ensures forall c :: c in Fields(room, seed, next) ==> c != NUL && c != 0x39 && c < 0x80
    decreases room, if next == [] then 1 else 0
  {
    hide Pattern, Fields;
    FieldsStep(room, seed, next);
    if |next| + 1 < room {
      PatternsArePlain(seed + 1);
      FieldBytes(if next == [] then room else room - |next| - 1, seed + 1, Pattern(seed + 1));
    }
  }

  /** A block ends in two zeros, and has no zero before the zeros at its end and no `9` anywhere. */
  lemma BlockBytes(size: nat, seed: int)
    requires size > 0
    ensures var b := Block(size, seed);
            && b[size - 1] == NUL && (size >= 2 ==> b[size - 2] == NUL)
            && (forall i :: 0 <= i < size ==> b[i] != 0x39 && b[i] < 0x80)
            && (forall i, j :: 0 <= i < j < size && b[i] == NUL ==> b[j] == NUL)
  {
    hide Fields, Pattern;
    FieldsFit(size - 1, seed, []);
    FieldBytes(size - 1, seed, []);
    var f := Fields(size - 1, seed, []);
    var b := Block(size, seed);
    forall i | 0 <= i < size ensures b[i] == if i < |f| then f[i] else NUL {}
    assert forall i :: 0 <= i < |f| ==> f[i] in f;
  }

  /** Both scans of an initialised block stop inside it, whatever the seed, if the stride is at least 2. */
  lemma ScansStop(size: nat, seed: int, x: U8, step: nat)
    requires size >= 2 && step >= 2
    ensures Terminated(Block(size, seed), 0)
    ensures Terminated(Corrupted(Block(size, seed), size, x, step), 0)
  {
    hide Block, Flip;
    BlockBytes(size, seed);
    var b := Block(size, seed);
    var c := Corrupted(b, size, x, step);
    assert b[size - 1] == NUL;
    if (size - 1) % step == 0 {
      if (size - 2) % step == 0 {
        StrideGap(size - 2, step, size - 1);
      }
      assert c[size - 2] == NUL;
    } else {
      assert c[size - 1] == NUL;
    }
  }

  lemma FlipToNul(c: U8, x: U8)
    ensures Flip(c, x) == NUL <==> c == x && x != COMMA
  {}

  /** With stride 1 every terminator is changed: the second scan stops exactly when the seed occurs in the block. */
  lemma StrideOneStopsExactlyWhen(m: seq<U8>, x: U8)
    ensures Terminated(Corrupted(m, |m|, x, 1), 0) <==> x in m && x != COMMA
  {
    hide Flip;
    var c := Corrupted(m, |m|, x, 1);
    forall i | 0 <= i < |m| ensures c[i] == NUL <==> m[i] == x && x != COMMA {
      FlipToNul(m[i], x);
    }
  }

  lemma NineIsTheOnlyDanger(c: U8)
    ensures Xor(c, 0x15) == COMMA ==> c == 0x39
  {}

  /** No byte of a block turns into a comma under the seed byte 0x15, so that corruption is always undone. */
  lemma SeedFifteenIsUndone(size: nat, seed: int, step: nat)
    requires size > 0 && step > 0
    ensures var b := Block(size, seed);
            Corrupted(Corrupted(b, size, 0x15, step), size, 0x15, step) == b
  {
    hide Block, Corrupted, Xor;
    var b := Block(size, seed);
    BlockBytes(size, seed);
    forall i | 0 <= i < size ensures Xor(b[i], 0x15) != COMMA {
      NineIsTheOnlyDanger(b[i]);
    }
    UndoneExactlyWhen(b, size, 0x15, 0x15, step);
  }

  // ----- what the scanner makes of the block -----

  lemma RunFirstFour(w: seq<U8>, state: CoreState)
    requires |w| >= 4
    ensures Run(state, w) == Run(Next(Next(Next(Next(state, w[0]), w[1]), w[2]), w[3]), w[4..])
  {
    hide Next, Run;
    RunStep(w, 0, |w|, state);
    RunStep(w, 1, |w|, Next(state, w[0]));
    RunStep(w, 2, |w|, Next(Next(state, w[0]), w[1]));
    RunStep(w, 3, |w|, Next(Next(Next(state, w[0]), w[1]), w[2]));
    assert w[0..|w|] == w;
  }

  lemma RunFour(w: seq<U8>, state: CoreState)
    requires |w| == 4
    ensures Run(state, w) == Next(Next(Next(Next(state, w[0]), w[1]), w[2]), w[3])
  {
    hide Next;
    RunFirstFour(w, state);
    RunNothing(Next(Next(Next(Next(state, w[0]), w[1]), w[2]), w[3]));
    assert w[4..] == [];
  }

  lemma RunEight(w: seq<U8>, state: CoreState)
    requires |w| == 8
    ensures var s := Next(Next(Next(Next(state, w[0]), w[1]), w[2]), w[3]);
            Run(state, w) == Next(Next(Next(Next(s, w[4]), w[5]), w[6]), w[7])
  {
    hide Next, Run;
    RunFirstFour(w, state);
    RunFour(w[4..], Next(Next(Next(Next(state, w[0]), w[1]), w[2]), w[3]));
  }

  lemma IntegersAreIntegers(k: nat)
    requires k < 4
    ensures Run(Start, INTEGERS[k]) == Int
  {
    hide Run;
    RunFour(INTEGERS[k], Start);
  }

  lemma FloatsAreFloats(k: nat)
    requires k < 4
    ensures Run(Start, FLOATS[k]) == Float
  {
    hide Run;
    RunEight(FLOATS[k], Start);
  }

  /** But for the third one: it has no dot, and the scanner knows no exponent after an integer. */
  lemma ScientificsAreScientific(k: nat)
    requires k < 4
    ensures Run(Start, SCIENTIFICS[k]) == if k == 2 then Invalid else Scientific
  {
    hide Run;
    RunEight(SCIENTIFICS[k], Start);
  }

  lemma ErrorsAreErrors(k: nat)
    requires k < 4
    ensures Run(Start, ERRORS[k]) == Invalid
  {
    hide Run;
    RunEight(ERRORS[k], Start);
  }

  /** Every pattern is for the scanner what its table says, but for the third scientific one. */
  lemma PatternKinds(k: nat)
    requires k < 4
    ensures Run(Start, INTEGERS[k]) == Int && Run(Start, FLOATS[k]) == Float && Run(Start, ERRORS[k]) == Invalid
    ensures Run(Start, SCIENTIFICS[k]) == if k == 2 then Invalid else Scientific
  {
    hide *;
    IntegersAreIntegers(k);
    FloatsAreFloats(k);
    ScientificsAreScientific(k);
    ErrorsAreErrors(k);
  }

  /** What kind of field a seed selects. */
  lemma SeedKind(seed: int)
    ensures Run(Start, Pattern(seed)) ==
            if seed % 8 < 3 then Int
            else if seed % 8 < 5 then Float
            else if seed % 8 < 7 && seed / 8 % 4 != 2 then Scientific
            else Invalid
  {
    hide Run, Pattern;
    PatternIs(seed);
    PatternKinds(seed / 8 % 4);
  }

  /** The table that a seed selects. */
  function Class(seed: int): nat {
    if seed % 8 < 3 then 0 else if seed % 8 < 5 then 1 else if seed % 8 < 7 then 2 else 3
  }

  /** Among the seeds of one table, the pattern is the same exactly when the two bits above agree. */
  lemma SamePatternExactlyWhen(seed: int, other: int)
    requires Class(seed) == Class(other)
    ensures Pattern(seed) == Pattern(other) <==> seed / 8 % 4 == other / 8 % 4
  {
    assert forall i, j :: 0 <= i < j < 4 ==> INTEGERS[i] != INTEGERS[j] && FLOATS[i] != FLOATS[j];
    assert forall i, j :: 0 <= i < j < 4 ==> SCIENTIFICS[i] != SCIENTIFICS[j] && ERRORS[i] != ERRORS[j];
  }

  // ----- which fields there are -----

  /** `n` fields, the first one selected by `seed`. */
  function Joined(seed: int, n: nat): seq<U8>
    decreases n
  {
    if n == 0 then [] else Pattern(seed) + [COMMA] + Joined(seed + 1, n - 1)
  }

  lemma FieldsNext(room: int, seed: int)
    ensures Fields(room, seed, []) ==
            var w := Pattern(seed + 1);
            if |w| + 1 < room then w + [COMMA] + Fields(room - |w| - 1, seed + 1, []) else []
  {
    hide Pattern, Fields;
    var w := Pattern(seed + 1);
    FieldsStep(room, seed, []);
    FieldsStep(room, seed + 1, w);
    FieldsStep(room - |w| - 1, seed + 1, []);
    FieldsStep(room - |w| - 1, seed + 2, Pattern(seed + 2));
  }

  /** The fields of a block are those of the seeds behind `seed`, as many as fit. */
  lemma {:induction false} FieldsAre(room: int, seed: int) returns (n: nat)
    ensures Fields(room, seed, []) == Joined(seed + 1, n)
    ensures FieldwiseTokens(room, seed, []) == CallsOf(seed + 1, n)
    ensures n > 0 ==> |Joined(seed + 1, n)| < room
    ensures |Joined(seed + 1, n)| + |Pattern(seed + 1 + n)| + 1 >= room
    decreases room
  {
    hide Pattern, Fields, FieldwiseTokens, FieldTokens;
    FieldsNext(room, seed);
    TokensNext(room, seed);
    var w := Pattern(seed + 1);
    if |w| + 1 < room {
      n := FieldsAre(room - |w| - 1, seed + 1);
      n := n + 1;
    } else {
      n := 0;
    }
  }

  /** A text as characters. */
  function Ascii(w: seq<U8>): (s: string)
    ensures |s| == |w|
  {
    seq(|w|, i requires 0 <= i < |w| => (w[i] as int) as char)
  }

  lemma Integers()
    ensures Ascii(INTEGERS[0]) == "5012" && Ascii(INTEGERS[1]) == "1234"
    ensures Ascii(INTEGERS[2]) == "-874" && Ascii(INTEGERS[3]) == "+122"
  {}

  lemma Floats()
    ensures Ascii(FLOATS[0]) == "35.54400" && Ascii(FLOATS[1]) == ".1234500"
    ensures Ascii(FLOATS[2]) == "-110.700" && Ascii(FLOATS[3]) == "+0.64400"
  {}

  lemma Scientifics()
    ensures Ascii(SCIENTIFICS[0]) == "5.500e+3" && Ascii(SCIENTIFICS[1]) == "-.123e-2"
    ensures Ascii(SCIENTIFICS[2]) == "-87e+832" && Ascii(SCIENTIFICS[3]) == "+0.6e-12"
  {}

  lemma Errors()
    ensures Ascii(ERRORS[0]) == "T0.3e-1F" && Ascii(ERRORS[1]) == "-T.T++Tq"
    ensures Ascii(ERRORS[2]) == "1T3.4e4z" && Ascii(ERRORS[3]) == "34.0e-T^"
  {}

  /** The texts of one row, in the order in which eight seeds select them. */
  function RowTexts(row: nat): (r: seq<string>)
    requires row < 4
    ensures |r| == 8
  {
    match row
    case 0 => ["5012", "5012", "5012", "35.54400", "35.54400", "5.500e+3", "5.500e+3", "T0.3e-1F"]
    case 1 => ["1234", "1234", "1234", ".1234500", ".1234500", "-.123e-2", "-.123e-2", "-T.T++Tq"]
    case 2 => ["-874", "-874", "-874", "-110.700", "-110.700", "-87e+832", "-87e+832", "1T3.4e4z"]
    case 3 => ["+122", "+122", "+122", "+0.64400", "+0.64400", "+0.6e-12", "+0.6e-12", "34.0e-T^"]
  }

  /** Every seed selects the text of its row. */
  lemma PatternText(seed: int)
    ensures Ascii(Pattern(seed)) == RowTexts(seed / 8 % 4)[seed % 8]
  {
    hide Ascii, Pattern;
    PatternIs(seed);
    if seed % 8 < 3 {
      Integers();
    } else if seed % 8 < 5 {
      Floats();
    } else if seed % 8 < 7 {
      Scientifics();
    } else {
      Errors();
    }
  }

  lemma {:induction false} JoinedGrows(seed: int, n: nat, k: nat)
    ensures n < k ==> |Joined(seed, k)| >= |Joined(seed, n)| + |Pattern(seed + n)| + 1
    decreases n
  {
    hide Pattern;
    if n > 0 && n < k {
      JoinedGrows(seed + 1, n - 1, k - 1);
    }
  }

  lemma FieldLength(seed: int, n: nat)
    requires n > 0
    ensures |Joined(seed, n)| == (if seed % 8 < 3 then 5 else 9) + |Joined(seed + 1, n - 1)|
  {
    hide Pattern, Ascii;
    PatternText(seed);
    assert |Pattern(seed)| == |Ascii(Pattern(seed))| == if seed % 8 < 3 then 4 else 8;
  }

  lemma RowLength(seed: int, n: nat)
    requires seed % 8 == 0
    ensures |Joined(seed, n + 8)| == 60 + |Joined(seed + 8, n)|
  {
    hide Joined;
    FieldLength(seed, n + 8);
    FieldLength(seed + 1, n + 7);
    FieldLength(seed + 2, n + 6);
    FieldLength(seed + 3, n + 5);
    FieldLength(seed + 4, n + 4);
    FieldLength(seed + 5, n + 3);
    FieldLength(seed + 6, n + 2);
    FieldLength(seed + 7, n + 1);
  }

  lemma PeriodLength()
    ensures |Joined(0, 32)| == 240 && |Pattern(32)| == 4
  {
    hide Joined, Pattern, Ascii;
    RowLength(0, 24);
    RowLength(8, 16);
    RowLength(16, 8);
    RowLength(24, 0);
    NothingJoined(32);
    PatternText(32);
  }

  /** A whole block: with 242 bytes and the seed -1, the 32 texts of all four rows and two zeros. */
  lemma WholeBlock()
    ensures Block(242, -1) == Joined(0, 32) + Zeros(2)
  {
    hide *;
    BlockIs(242, -1);
    PeriodLength();
    var n := FieldsAre(241, -1);
    JoinedGrows(0, n, 32);
    JoinedGrows(0, 32, n);
  }

  lemma NothingJoined(seed: int)
    ensures Joined(seed, 0) == []
  {}

  /** What the scanner returns for a field that stands alone. */
  function FieldTokens(w: seq<U8>): seq<CoreState> {
    assert (w + [COMMA, NUL])[|w| + 1] == NUL;
    Tokens(w + [COMMA, NUL], 0)
  }

  /** What it returns, field by field, for the fields of a block. */
  function FieldwiseTokens(room: int, seed: int, next: seq<U8>): seq<CoreState>
    decreases room, if next == [] then 1 else 0
  {
    if |next| + 1 >= room then []
    else if next == [] then FieldwiseTokens(room, seed + 1, Pattern(seed + 1))
    else FieldTokens(next) + FieldwiseTokens(room - |next| - 1, seed + 1, Pattern(seed + 1))
  }

  /** The calls for `n` fields, the first one selected by `seed`. */
  function CallsOf(seed: int, n: nat): seq<CoreState>
    decreases n
  {
    if n == 0 then [] else FieldTokens(Pattern(seed)) + CallsOf(seed + 1, n - 1)
  }

  lemma FieldwiseStep(room: int, seed: int, next: seq<U8>)
    ensures |next| + 1 >= room ==> FieldwiseTokens(room, seed, next) == []
    ensures |next| + 1 < room ==>
              FieldwiseTokens(room, seed, next) ==
              if next == [] then FieldwiseTokens(room, seed + 1, Pattern(seed + 1))
              else FieldTokens(next) + FieldwiseTokens(room - |next| - 1, seed + 1, Pattern(seed + 1))
  {
    hide Pattern, FieldTokens;
  }

  lemma TokensNext(room: int, seed: int)
    ensures FieldwiseTokens(room, seed, []) ==
            var w := Pattern(seed + 1);
            if |w| + 1 < room then FieldTokens(w) + FieldwiseTokens(room - |w| - 1, seed + 1, []) else []
  {
    hide Pattern, FieldTokens, FieldwiseTokens;
    var w := Pattern(seed + 1);
    FieldwiseStep(room, seed, []);
    FieldwiseStep(room, seed + 1, w);
    FieldwiseStep(room - |w| - 1, seed + 1, []);
    FieldwiseStep(room - |w| - 1, seed + 2, Pattern(seed + 2));
  }

  lemma {:induction false} ScanShift(a: seq<U8>, b: seq<U8>, k: nat, state: CoreState)
    requires Terminated(b, k) && Terminated(a + b, |a| + k)
    ensures Scan(a + b, |a| + k, state) == (Scan(b, k, state).0, |a| + Scan(b, k, state).1)
    decreases |b| - k
  {
    hide Next;
    assert (a + b)[|a| + k] == b[k];
    if b[k] != NUL && state != Invalid && b[k] != COMMA {
      ScanShift(a, b, k + 1, Next(state, b[k]));
    }
  }

  lemma TokensStep(m: seq<U8>, p: nat)
    requires Terminated(m, p)
    ensures Tokens(m, p) == if m[p] == NUL then [] else [Scan(m, p, Start).0] + Tokens(m, Scan(m, p, Start).1)
  {}

  lemma {:induction false} TokensShift(a: seq<U8>, b: seq<U8>, k: nat)
    requires Terminated(b, k) && Terminated(a + b, |a| + k)
    ensures Tokens(a + b, |a| + k) == Tokens(b, k)
    decreases |b| - k
  {
    hide Scan, Tokens;
    assert (a + b)[|a| + k] == b[k];
    TokensStep(b, k);
    TokensStep(a + b, |a| + k);
    if b[k] != NUL {
      ScanShift(a, b, k, Start);
      TokensShift(a, b, Scan(b, k, Start).1);
    }
  }

  /** Inside a field, the scan does not depend on what follows the comma. */
  lemma {:induction false} ScanLocal(a: seq<U8>, b: seq<U8>, c: seq<U8>, p: nat, state: CoreState)
    requires p < |a| && a[|a| - 1] == COMMA
    requires Terminated(a + b, p) && Terminated(a + c, p)
    requires forall i :: 0 <= i < |a| ==> a[i] != NUL
    ensures Scan(a + b, p, state) == Scan(a + c, p, state) && Scan(a + b, p, state).1 <= |a|
    decreases |a| - p
  {
    hide Next;
    assert (a + b)[p] == a[p] == (a + c)[p];
    if state != Invalid && a[p] != COMMA {
      ScanLocal(a, b, c, p + 1, Next(state, a[p]));
    }
  }

  /** Fields are scanned one after the other. */
  lemma {:induction false} TokensSplit(a: seq<U8>, b: seq<U8>, p: nat)
    requires p <= |a| && a != [] && a[|a| - 1] == COMMA
    requires Terminated(a + b, p) && Terminated(a + [NUL], p) && Terminated(b, 0)
    requires forall i :: 0 <= i < |a| ==> a[i] != NUL
    ensures Tokens(a + b, p) == Tokens(a + [NUL], p) + Tokens(b, 0)
    decreases |a| - p
  {
    hide Scan, Tokens;
    TokensStep(a + [NUL], p);
    if p == |a| {
      TokensShift(a, b, 0);
    } else {
      assert (a + b)[p] == a[p] == (a + [NUL])[p];
      TokensStep(a + b, p);
      ScanLocal(a, b, [NUL], p, Start);
      TokensSplit(a, b, Scan(a + b, p, Start).1);
    }
  }

  /** The whole block, of any size and seed, is scanned field by field. */
  lemma {:induction false} FieldsAreScanned(room: int, seed: int, next: seq<U8>, n: nat)
    requires Plain(next)
    ensures var m := Fields(room, seed, next) + Zeros(n + 1);
            Terminated(m, 0) && Tokens(m, 0) == FieldwiseTokens(room, seed, next)
    decreases room, if next == [] then 1 else 0
  {
    hide Pattern, Fields, Tokens, Plain;
    FieldsStep(room, seed, next);
    var m := Fields(room, seed, next) + Zeros(n + 1);
    assert m[|m| - 1] == NUL;
    if |next| + 1 >= room {
      NoTokens(m);
    } else {
      PatternsArePlain(seed + 1);
      FieldsAreScanned(if next == [] then room else room - |next| - 1, seed + 1, Pattern(seed + 1), n);
      if next != [] {
        var a, b := next + [COMMA], Fields(room - |next| - 1, seed + 1, Pattern(seed + 1)) + Zeros(n + 1);
        assert m == a + b && a + [NUL] == next + [COMMA, NUL];
        assert (a + [NUL])[|a|] == NUL;
        PlainHasNoNul(next);
        TokensSplit(a, b, 0);
      }
    }
  }

  lemma NoTokens(m: seq<U8>)
    requires m != [] && m[0] == NUL && Terminated(m, 0)
    ensures Tokens(m, 0) == []
  {}

  lemma PlainHasNoNul(w: seq<U8>)
    requires Plain(w)
    ensures forall i :: 0 <= i < |w| ==> w[i] != NUL
  {}

  lemma BlockIsScanned(size: nat, seed: int)
    requires size > 0
    ensures Terminated(Block(size, seed), 0)
    ensures Tokens(Block(size, seed), 0) == FieldwiseTokens(size - 1, seed, [])
  {
    hide Fields, Tokens, FieldwiseTokens;
    FieldsFit(size - 1, seed, []);
    FieldsAreScanned(size - 1, seed, [], size - |Fields(size - 1, seed, [])| - 1);
  }

  /**
   What a block of any size and seed holds, and what the scanner makes of it: the k-th field is the pattern of the seed
   `seed + 1 + k`, there are as many fields as fit, and each is scanned as if it stood alone.
   */
  lemma BlockOfFields(size: nat, seed: int) returns (n: nat)
    requires size > 0
    ensures var fields := Joined(seed + 1, n);
            && (n > 0 ==> |fields| < size - 1) && |fields| + |Pattern(seed + 1 + n)| + 1 >= size - 1
            && |fields| <= size && Block(size, seed) == fields + Zeros(size - |fields|)
    ensures Terminated(Block(size, seed), 0) && Tokens(Block(size, seed), 0) == CallsOf(seed + 1, n)
  {
    hide *;
    BlockIs(size, seed);
    BlockIsScanned(size, seed);
    n := FieldsAre(size - 1, seed);
  }

  /** The calls for one field: the kind that its seed selects, and for an invalid one at least a first INVALID. */
  lemma FieldCalls(seed: int)
    ensures seed % 8 < 3 ==> FieldTokens(Pattern(seed)) == [Int]
    ensures 3 <= seed % 8 < 5 ==> FieldTokens(Pattern(seed)) == [Float]
    ensures 5 <= seed % 8 < 7 && seed / 8 % 4 != 2 ==> FieldTokens(Pattern(seed)) == [Scientific]
    ensures seed % 8 == 7 || (5 <= seed % 8 < 7 && seed / 8 % 4 == 2) ==>
              FieldTokens(Pattern(seed)) != [] && FieldTokens(Pattern(seed))[0] == Invalid
  {
    hide Run, Pattern, FieldTokens, Plain;
    SeedKind(seed);
    PatternsArePlain(seed);
    if Run(Start, Pattern(seed)) != Invalid {
      NumberIsOneToken(Pattern(seed));
    } else {
      InvalidIsFirstToken(Pattern(seed));
    }
  }

  lemma InvalidIsFirstToken(w: seq<U8>)
    requires Plain(w) && Run(Start, w) == Invalid && w != []
    ensures FieldTokens(w) != [] && FieldTokens(w)[0] == Invalid
  {
    hide Run, Plain, Scan;
    var m := w + [COMMA, NUL];
    assert m[|w| + 1] == NUL;
    PlainHasNoNul(w);
    PlainHasNoComma(w);
    EndOfField(m, 0, |w|);
    ScanIsRun(m, 0, Start);
    assert m[0..|w|] == w;
  }

  /** A field that is a number is one call, which returns its kind. */
  lemma NumberIsOneToken(w: seq<U8>)
    requires Plain(w) && Run(Start, w) != Invalid && w != []
    ensures FieldTokens(w) == [Run(Start, w)]
  {
    hide Run, Plain;
    var m := w + [COMMA, NUL];
    assert m[|w| + 1] == NUL;
    PlainHasNoNul(w);
    PlainHasNoComma(w);
    EndOfField(m, 0, |w|);
    ScanIsRun(m, 0, Start);
    assert m[0..|w|] == w;
    assert Tokens(m, |w| + 2 - 1) == [];
  }

  lemma PlainHasNoComma(w: seq<U8>)
    requires Plain(w)
    ensures forall i :: 0 <= i < |w| ==> w[i] != COMMA
  {}

  lemma EndOfField(m: seq<U8>, p: nat, e: nat)
    requires Terminated(m, p) && p <= e < |m| && m[e] == COMMA
    requires forall i :: p <= i < e ==> m[i] != NUL && m[i] != COMMA
    ensures FieldEnd(m, p) == e
  {}
}
