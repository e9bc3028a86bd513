/**
 The number scanner of `core_state.c`: `core_state_transition` against the grammar it recognises, and the
 counters it keeps on the way.
 */
module StateMachine {
  import opened Numbers

  type U8 = bv8

  const NUL: U8 := 0
  const COMMA: U8 := 0x2c
  const PLUS: U8 := 0x2b
  const MINUS: U8 := 0x2d
  const DOT: U8 := 0x2e

  /** The states, in the order of their numbers. */
  datatype CoreState = Start | Invalid | S1 | S2 | Int | Float | Exponent | Scientific

  predicate IsDigit(c: U8) { 0x30 <= c <= 0x39 }

  predicate IsSign(c: U8) { c == PLUS || c == MINUS }

  predicate IsE(c: U8) { c == 0x45 || c == 0x65 }

  /** The characters that the machine tells apart. */
  lemma CharactersAre(c: U8)
    ensures IsDigit(c) <==> c as int as char in "0123456789"
    ensures IsSign(c) <==> c as int as char in "+-"
    ensures IsE(c) <==> c as int as char in "eE"
    ensures c == DOT <==> c as int as char == '.'
    ensures c == COMMA <==> c as int as char == ','
  {
    assert "0123456789" == ['0', '1', '2', '3', '4', '5', '6', '7', '8', '9'];
    assert "+-" == ['+', '-'] && "eE" == ['e', 'E'];
  }

  // ----- the grammar -----

  predicate AllDigits(w: seq<U8>) { forall i :: 0 <= i < |w| ==> IsDigit(w[i]) }

  predicate Digits(w: seq<U8>) { w != [] && AllDigits(w) }

  /** `d*.d*` */
  predicate Fraction(w: seq<U8>) {
    exists k :: 0 <= k < |w| && w[k] == DOT && AllDigits(w[..k]) && AllDigits(w[k + 1..])
  }

  /** `[+-]d+` */
  predicate Power(w: seq<U8>) { w != [] && IsSign(w[0]) && Digits(w[1..]) }

  /** `d*.d*[eE][+-]d+` */
  predicate Scaled(w: seq<U8>) {
    exists k :: 0 <= k < |w| && IsE(w[k]) && Fraction(w[..k]) && Power(w[k + 1..])
  }

  /** The text after an optional sign. */
  function Unsigned(w: seq<U8>): seq<U8> { if w != [] && IsSign(w[0]) then w[1..] else w }

  predicate IsInteger(w: seq<U8>) { Digits(Unsigned(w)) }

  predicate IsFloat(w: seq<U8>) { Fraction(Unsigned(w)) }

  predicate IsScientific(w: seq<U8>) { Scaled(Unsigned(w)) }

  predicate IsNumber(w: seq<U8>) { IsInteger(w) || IsFloat(w) || IsScientific(w) }

  /** Some number begins with `w`. */
  ghost predicate Viable(w: seq<U8>) { exists rest: seq<U8> :: IsNumber(w + rest) }

  // ----- the machine -----

  function Next(state: CoreState, c: U8): CoreState {
    match state
    case Start =>
      if IsDigit(c) then Int else if IsSign(c) then S1 else if c == DOT then Float else Invalid
    case S1 => if IsDigit(c) then Int else if c == DOT then Float else Invalid
    case Int => if c == DOT then Float else if !IsDigit(c) then Invalid else Int
    case Float => if IsE(c) then S2 else if !IsDigit(c) then Invalid else Float
    case S2 => if IsSign(c) then Exponent else Invalid
    case Exponent => if IsDigit(c) then Scientific else Invalid
    case Scientific => if !IsDigit(c) then Invalid else Scientific
    case Invalid => Invalid
  }

  function Run(state: CoreState, w: seq<U8>): CoreState
    decreases |w|
  {
    if w == [] then state else Run(Next(state, w[0]), w[1..])
  }

  /** There is a terminating byte at or after `p`. */
  predicate Terminated(m: seq<U8>, p: nat) { exists z :: p <= z < |m| && m[z] == NUL }

  /** Where the text that begins at `p` ends: its comma or its terminator. */
  function FieldEnd(m: seq<U8>, p: nat): (e: nat)
    requires Terminated(m, p)
    ensures p <= e < |m| && (m[e] == NUL || m[e] == COMMA)
    ensures forall i :: p <= i < e ==> m[i] != NUL && m[i] != COMMA
    decreases |m| - p
  {
    if m[p] == NUL || m[p] == COMMA then p else FieldEnd(m, p + 1)
  }

  /** One call: the state it returns, and where it leaves the pointer. */
  function Scan(m: seq<U8>, p: nat, state: CoreState): (r: (CoreState, nat))
    requires Terminated(m, p)
    ensures p <= r.1 && Terminated(m, r.1)
    ensures state == Start && m[p] != NUL ==> p < r.1
    decreases |m| - p
  {
    if m[p] == NUL || state == Invalid then (state, p)
    else if m[p] == COMMA then (state, p + 1)
    else Scan(m, p + 1, Next(state, m[p]))
  }

  // ----- the machine recognises the grammar -----

  lemma {:induction false} RunScientific(w: seq<U8>)
    ensures Run(Scientific, w) == if AllDigits(w) then Scientific else Invalid
  {
    if w != [] {
      RunScientific(w[1..]);
      RunInvalid(w[1..]);
      AllDigitsStep(w);
    }
  }

  lemma {:induction false} RunInvalid(w: seq<U8>)
    ensures Run(Invalid, w) == Invalid
  {
    if w != [] {
      RunInvalid(w[1..]);
    }
  }

  lemma AllDigitsStep(w: seq<U8>)
    requires w != []
    ensures AllDigits(w) <==> IsDigit(w[0]) && AllDigits(w[1..])
  {
    assert AllDigits(w) ==> forall i :: 0 <= i < |w[1..]| ==> w[1..][i] == w[i + 1];
    assert forall i :: 0 < i < |w| ==> w[i] == w[1..][i - 1];
  }

  lemma RunExponent(w: seq<U8>)
    ensures Run(Exponent, w) == if w == [] then Exponent else if Digits(w) then Scientific else Invalid
  {
    if w != [] {
      RunScientific(w[1..]);
      RunInvalid(w[1..]);
      AllDigitsStep(w);
    }
  }

  lemma RunS2(w: seq<U8>)
    ensures Run(S2, w) ==
            if w == [] then S2 else if |w| == 1 && IsSign(w[0]) then Exponent
            else if Power(w) then Scientific else Invalid
  {
    if w != [] {
      RunExponent(w[1..]);
      RunInvalid(w[1..]);
    }
  }

  /** `d*[eE][+-]d+`: what may follow the dot. */
  predicate Tail(w: seq<U8>) {
    exists k :: 0 <= k < |w| && IsE(w[k]) && AllDigits(w[..k]) && Power(w[k + 1..])
  }

  lemma NoDigits()
    ensures AllDigits([])
  {}

  lemma TailStep(w: seq<U8>)
    requires w != []
    ensures Tail(w) <==> (IsDigit(w[0]) && Tail(w[1..])) || (IsE(w[0]) && Power(w[1..]))
  {
    hide Power, AllDigits;
    NoDigits();
    var v := w[1..];
    if Tail(w) {
      var k :| 0 <= k < |w| && IsE(w[k]) && AllDigits(w[..k]) && Power(w[k + 1..]);
      if k > 0 {
        assert v[k - 1] == w[k] && w[..k][1..] == v[..k - 1] && v[k..] == w[k + 1..];
        AllDigitsStep(w[..k]);
      }
    }
    if IsDigit(w[0]) && Tail(v) {
      var k :| 0 <= k < |v| && IsE(v[k]) && AllDigits(v[..k]) && Power(v[k + 1..]);
      assert v[k] == w[k + 1] && w[..k + 1][1..] == v[..k] && v[k + 1..] == w[k + 2..];
      AllDigitsStep(w[..k + 1]);
    }
    if IsE(w[0]) && Power(v) {
      assert w[..0] == [] && w[1..] == v;
    }
  }

  lemma FractionStep(w: seq<U8>)
    requires w != []
    ensures Fraction(w) <==> (IsDigit(w[0]) && Fraction(w[1..])) || (w[0] == DOT && AllDigits(w[1..]))
  {
    hide AllDigits;
    NoDigits();
    var v := w[1..];
    if Fraction(w) {
      var k :| 0 <= k < |w| && w[k] == DOT && AllDigits(w[..k]) && AllDigits(w[k + 1..]);
      if k > 0 {
        assert v[k - 1] == w[k] && w[..k][1..] == v[..k - 1] && v[k..] == w[k + 1..];
        AllDigitsStep(w[..k]);
      }
    }
    if IsDigit(w[0]) && Fraction(v) {
      var k :| 0 <= k < |v| && v[k] == DOT && AllDigits(v[..k]) && AllDigits(v[k + 1..]);
      assert v[k] == w[k + 1] && w[..k + 1][1..] == v[..k] && v[k + 1..] == w[k + 2..];
      AllDigitsStep(w[..k + 1]);
    }
    if w[0] == DOT && AllDigits(v) {
      assert w[..0] == [] && w[1..] == v;
    }
  }

  lemma ScaledStep(w: seq<U8>)
    requires w != []
    ensures Scaled(w) <==> (IsDigit(w[0]) && Scaled(w[1..])) || (w[0] == DOT && Tail(w[1..]))
  {
    hide Scaled, Tail;
    if Scaled(w) { ScaledBegins(w); }
    if IsDigit(w[0]) && Scaled(w[1..]) { DigitBeforeScaled(w); }
    if w[0] == DOT && Tail(w[1..]) { DotBeforeTail(w); }
  }

  lemma ScaledBegins(w: seq<U8>)
    requires w != [] && Scaled(w)
    ensures (IsDigit(w[0]) && Scaled(w[1..])) || (w[0] == DOT && Tail(w[1..]))
  {
    hide Power, Fraction, AllDigits;
    var v := w[1..];
    var k :| 0 <= k < |w| && IsE(w[k]) && Fraction(w[..k]) && Power(w[k + 1..]);
    FractionIsNotEmpty(w[..k]);
    assert v[k - 1] == w[k] && w[..k][1..] == v[..k - 1] && v[k..] == w[k + 1..];
    FractionStep(w[..k]);
  }

  lemma DigitBeforeScaled(w: seq<U8>)
    requires w != [] && IsDigit(w[0]) && Scaled(w[1..])
    ensures Scaled(w)
  {
    hide Power, Fraction, AllDigits;
    var v := w[1..];
    var k :| 0 <= k < |v| && IsE(v[k]) && Fraction(v[..k]) && Power(v[k + 1..]);
    assert v[k] == w[k + 1] && w[..k + 1][1..] == v[..k] && v[k + 1..] == w[k + 2..];
    FractionStep(w[..k + 1]);
  }

  lemma DotBeforeTail(w: seq<U8>)
    requires w != [] && w[0] == DOT && Tail(w[1..])
    ensures Scaled(w)
  {
    hide Power, Fraction, AllDigits;
    var v := w[1..];
    var k :| 0 <= k < |v| && IsE(v[k]) && AllDigits(v[..k]) && Power(v[k + 1..]);
    assert v[k] == w[k + 1] && w[..k + 1][1..] == v[..k] && v[k + 1..] == w[k + 2..];
    FractionStep(w[..k + 1]);
  }

  lemma FractionIsNotEmpty(w: seq<U8>)
    ensures Fraction(w) ==> w != []
  {}

  lemma {:induction false} RunFloat(w: seq<U8>)
    ensures Run(Float, w) == Float <==> AllDigits(w)
    ensures Run(Float, w) == Scientific <==> Tail(w)
    ensures Run(Float, w) != Int
  {
    hide AllDigits, Tail;
    if w == [] {
      Empty();
    } else {
      RunFloat(w[1..]);
      RunS2(w[1..]);
      RunInvalid(w[1..]);
      AllDigitsStep(w);
      TailStep(w);
    }
  }

  lemma Empty()
    ensures AllDigits([]) && !Tail([]) && !Fraction([]) && !Scaled([])
  {}

  lemma {:induction false} RunInt(w: seq<U8>)
    ensures Run(Int, w) == Int <==> AllDigits(w)
    ensures Run(Int, w) == Float <==> Fraction(w)
    ensures Run(Int, w) == Scientific <==> Scaled(w)
  {
    hide AllDigits, Tail, Fraction, Scaled;
    if w == [] {
      Empty();
    } else {
      RunInt(w[1..]);
      RunFloat(w[1..]);
      RunInvalid(w[1..]);
      AllDigitsStep(w);
      FractionStep(w);
      ScaledStep(w);
    }
  }

  lemma RunS1(w: seq<U8>)
    ensures Run(S1, w) == Int <==> Digits(w)
    ensures Run(S1, w) == Float <==> Fraction(w)
    ensures Run(S1, w) == Scientific <==> Scaled(w)
  {
    hide AllDigits, Tail, Fraction, Scaled;
    if w == [] {
      Empty();
    } else {
      RunInt(w[1..]);
      RunFloat(w[1..]);
      RunInvalid(w[1..]);
      AllDigitsStep(w);
      FractionStep(w);
      ScaledStep(w);
    }
  }

  lemma StartIsOptionalSign(w: seq<U8>)
    requires w != []
    ensures Run(Start, w) == Run(S1, Unsigned(w))
  {}

  /** The three accepting states are the three kinds of number. */
  lemma RunIsGrammar(w: seq<U8>)
    ensures Run(Start, w) == Int <==> IsInteger(w)
    ensures Run(Start, w) == Float <==> IsFloat(w)
    ensures Run(Start, w) == Scientific <==> IsScientific(w)
  {
    hide Digits, Fraction, Scaled, Run;
    if w == [] {
      EmptyRun();
    } else {
      StartIsOptionalSign(w);
      RunS1(Unsigned(w));
    }
  }

  lemma EmptyRun()
    ensures Run(Start, []) == Start && !Digits([]) && !Fraction([]) && !Scaled([])
  {}

  lemma {:induction false} RunConcat(state: CoreState, v: seq<U8>, w: seq<U8>)
    ensures Run(state, v + w) == Run(Run(state, v), w)
    decreases |v|
  {
    if v == [] {
      assert v + w == w;
    } else {
      RunConcat(Next(state, v[0]), v[1..], w);
      assert (v + w)[1..] == v[1..] + w;
    }
  }

  /** What turns the text read so far into a number. */
  function Completion(state: CoreState): seq<U8> {
    match state
    case Start | S1 | Exponent => [0x30]
    case S2 => [PLUS, 0x30]
    case _ => []
  }

  lemma CompletionCompletes(state: CoreState)
    requires state != Invalid
    ensures Run(state, Completion(state)) in {Int, Float, Scientific}
  {
    var c := Completion(state);
    if c != [] {
      assert Run(state, c) == Run(Next(state, c[0]), c[1..]);
      if |c| == 2 {
        assert c[1..] == [0x30];
        assert Run(Exponent, c[1..]) == Run(Scientific, []);
      }
    }
  }

  /** The machine gives up exactly on the texts that no number begins with. */
  lemma ViableIsNotInvalid(w: seq<U8>)
    ensures Viable(w) <==> Run(Start, w) != Invalid
  {
    hide IsInteger, IsFloat, IsScientific, Run;
    var state := Run(Start, w);
    if Viable(w) {
      var rest: seq<U8> :| IsNumber(w + rest);
      RunIsGrammar(w + rest);
      RunConcat(Start, w, rest);
      RunInvalid(rest);
    }
    if state != Invalid {
      CompletionCompletes(state);
      RunConcat(Start, w, Completion(state));
      RunIsGrammar(w + Completion(state));
      assert IsNumber(w + Completion(state));
    }
  }

  // ----- one call -----

  /** A call runs the machine over the field, or over the shortest part of it that makes it give up. */
  lemma {:induction false} ScanIsRun(m: seq<U8>, p: nat, state: CoreState)
    requires Terminated(m, p)
    ensures var e := FieldEnd(m, p);
            var (s, q) := Scan(m, p, state);
            && s == Run(state, m[p..e])
            && (s != Invalid ==> q == if m[e] == COMMA then e + 1 else e)
            && (s == Invalid && state != Invalid ==>
                  p < q <= e && Run(state, m[p..q]) == Invalid && Run(state, m[p..q - 1]) != Invalid)
    decreases |m| - p
  {
    hide Next, Run;
    var e := FieldEnd(m, p);
    RunNothing(state);
    if m[p] == NUL || m[p] == COMMA {
      assert m[p..e] == [];
    } else if state == Invalid {
      RunInvalid(m[p..e]);
    } else {
      var next := Next(state, m[p]);
      var (s, q) := Scan(m, p + 1, next);
      ScanIsRun(m, p + 1, next);
      RunStep(m, p, e, state);
      if s == Invalid && next == Invalid {
        assert q == p + 1;
        assert m[p..q - 1] == [] == m[p + 1..q];
        RunNothing(next);
        RunStep(m, p, q, state);
      } else if s == Invalid {
        RunStep(m, p, q, state);
        RunStep(m, p, q - 1, state);
      }
    }
  }

  lemma RunNothing(state: CoreState)
    ensures Run(state, []) == state
  {}

  lemma RunStep(m: seq<U8>, p: nat, q: nat, state: CoreState)
    requires p < q <= |m|
    ensures Run(state, m[p..q]) == Run(Next(state, m[p]), m[p + 1..q])
  {
    assert m[p..q][1..] == m[p + 1..q];
  }

  /** What one call means: the kind of the text it was given, and how much of it was consumed. */
  ghost predicate Classifies(m: seq<U8>, p: nat, s: CoreState, q: nat)
    requires Terminated(m, p)
  {
    var e := FieldEnd(m, p);
    var w := m[p..e];
    && (s == Int <==> IsInteger(w))
    && (s == Float <==> IsFloat(w))
    && (s == Scientific <==> IsScientific(w))
    && (s == Invalid <==> !Viable(w))
    && (s != Invalid ==> q == if m[e] == COMMA then e + 1 else e)
    && (s == Invalid ==> p < q <= e && !Viable(m[p..q]) && Viable(m[p..q - 1]))
  }

  lemma ScanClassifies(m: seq<U8>, p: nat)
    requires Terminated(m, p)
    ensures Classifies(m, p, Scan(m, p, Start).0, Scan(m, p, Start).1)
  {
    hide IsInteger, IsFloat, IsScientific, Viable, Run, Scan, FieldEnd;
    var e := FieldEnd(m, p);
    var (s, q) := Scan(m, p, Start);
    ScanIsRun(m, p, Start);
    RunIsGrammar(m[p..e]);
    ViableIsNotInvalid(m[p..e]);
    if s == Invalid {
      ViableIsNotInvalid(m[p..q]);
      ViableIsNotInvalid(m[p..q - 1]);
    }
  }

  /** The classification leaves no choice: at most one state of each kind, and one position. */
  lemma ClassifiesOnce(m: seq<U8>, p: nat, s: CoreState, q: nat)
    requires Terminated(m, p)
    requires Classifies(m, p, s, q) && s in {Int, Float, Scientific, Invalid}
    ensures Scan(m, p, Start) == (s, q)
  {
    hide IsInteger, IsFloat, IsScientific, Viable, Run, Scan, FieldEnd;
    ScanClassifies(m, p);
    if s == Invalid {
      var t := Scan(m, p, Start).1;
      ShortestIsUnique(m, p, q, t);
    }
  }

  lemma ShortestIsUnique(m: seq<U8>, p: nat, q: nat, t: nat)
    requires p < q <= |m| && p < t <= |m|
    requires !Viable(m[p..q]) && Viable(m[p..q - 1])
    requires !Viable(m[p..t]) && Viable(m[p..t - 1])
    ensures q == t
  {
    hide Viable;
    if q < t {
      assert m[p..q] + m[q..t - 1] == m[p..t - 1];
      ViablePrefix(m[p..q], m[q..t - 1]);
    } else if t < q {
      assert m[p..t] + m[t..q - 1] == m[p..q - 1];
      ViablePrefix(m[p..t], m[t..q - 1]);
    }
  }

  lemma ViablePrefix(v: seq<U8>, w: seq<U8>)
    requires Viable(v + w)
    ensures Viable(v)
  {
    hide IsNumber;
    var rest: seq<U8> :| IsNumber(v + w + rest);
    assert v + w + rest == v + (w + rest);
  }

  // ----- the transition counters -----

  type U32 = x: int | 0 <= x < W32

  const STATES := 8

  function Number(s: CoreState): nat {
    match s
    case Start => 0
    case Invalid => 1
    case S1 => 2
    case S2 => 3
    case Int => 4
    case Float => 5
    case Exponent => 6
    case Scientific => 7
  }

  function Numbered(i: nat): CoreState
    requires i < STATES
  {
    [Start, Invalid, S1, S2, Int, Float, Exponent, Scientific][i]
  }

  lemma NumberedNumber(s: CoreState)
    ensures Number(s) < STATES && Numbered(Number(s)) == s
  {}

  /** By how much one transition raises the counter of `s`. */
  function Bumps(state: CoreState, c: U8, s: CoreState): nat {
    match state
    case Start => (if s == Start then 1 else 0) + (if s == Invalid && Next(state, c) == Invalid then 1 else 0)
    case S1 | S2 | Exponent => if s == state then 1 else 0
    case Int | Float => if s == state && Next(state, c) != state then 1 else 0
    case Scientific => if s == Invalid && Next(state, c) == Invalid then 1 else 0
    case Invalid => 0
  }

  /** By how much one call raises the counter of `s`. */
  function CallBumps(m: seq<U8>, p: nat, state: CoreState, s: CoreState): nat
    requires Terminated(m, p)
    decreases |m| - p
  {
    if m[p] == NUL || state == Invalid || m[p] == COMMA then 0
    else Bumps(state, m[p], s) + CallBumps(m, p + 1, Next(state, m[p]), s)
  }

  /** The machine never comes back to a state that it has left. */
  function Rank(s: CoreState): nat {
    match s
    case Start => 0
    case S1 => 1
    case Int => 2
    case Float => 3
    case S2 => 4
    case Exponent => 5
    case Scientific => 6
    case Invalid => 7
  }

  lemma NextClimbs(state: CoreState, c: U8)
    ensures Next(state, c) != state ==> Rank(state) < Rank(Next(state, c))
  {}

  lemma {:induction false} RunClimbs(state: CoreState, w: seq<U8>)
    ensures Rank(state) <= Rank(Run(state, w))
    decreases |w|
  {
    hide Next, Rank;
    if w == [] {
      RunNothing(state);
    } else {
      NextClimbs(state, w[0]);
      RunClimbs(Next(state, w[0]), w[1..]);
    }
  }

  /** The machine is in state `s` somewhere in the field at `p`. */
  ghost predicate Passes(m: seq<U8>, p: nat, state: CoreState, s: CoreState)
    requires Terminated(m, p)
  {
    exists k :: p <= k <= FieldEnd(m, p) && Run(state, m[p..k]) == s
  }

  lemma PassesStep(m: seq<U8>, p: nat, state: CoreState, s: CoreState)
    requires Terminated(m, p) && m[p] != NUL && m[p] != COMMA
    ensures Passes(m, p, state, s) <==> state == s || Passes(m, p + 1, Next(state, m[p]), s)
  {
    hide Next, Run;
    var e, next := FieldEnd(m, p), Next(state, m[p]);
    RunNothing(state);
    assert m[p..p] == [];
    if Passes(m, p, state, s) {
      var k :| p <= k <= e && Run(state, m[p..k]) == s;
      if p < k {
        RunStep(m, p, k, state);
      }
    }
    if Passes(m, p + 1, next, s) {
      var k :| p + 1 <= k <= e && Run(next, m[p + 1..k]) == s;
      RunStep(m, p, k, state);
    }
  }

  lemma Unreached(m: seq<U8>, p: nat, state: CoreState, s: CoreState)
    requires Terminated(m, p) && Rank(s) < Rank(state)
    ensures !Passes(m, p, state, s)
  {
    hide Next, Run, Terminated, Rank, FieldEnd;
    forall k | p <= k <= FieldEnd(m, p) ensures Run(state, m[p..k]) != s {
      RunClimbs(state, m[p..k]);
    }
  }

  /** What one transition does to the counter of `s`, for all but two of the states: it counts departures. */
  lemma BumpIsDeparture(state: CoreState, c: U8, s: CoreState)
    requires s != Invalid && s != Scientific
    ensures Bumps(state, c, s) == if s == state && Next(state, c) != state then 1 else 0
  {}

  /** A counter moves, by one, exactly when the call went through its state and did not end there. */
  lemma {:induction false} CounterIsDeparture(m: seq<U8>, p: nat, state: CoreState, s: CoreState)
    requires Terminated(m, p) && s != Invalid && s != Scientific
    ensures CallBumps(m, p, state, s) ==
            if Passes(m, p, state, s) && Scan(m, p, state).0 != s then 1 else 0
    decreases |m| - p
  {
    hide Next, Run, Bumps, Rank, Passes, FieldEnd;
    if m[p] == NUL || m[p] == COMMA {
      PassesOnlyHere(m, p, state, s);
    } else if state == Invalid {
      OnlyInvalid(m, p, s);
    } else {
      var next := Next(state, m[p]);
      CounterIsDeparture(m, p + 1, next, s);
      PassesStep(m, p, state, s);
      BumpIsDeparture(state, m[p], s);
      NextClimbs(state, m[p]);
      if state == s {
        if next == s {
          PassesHere(m, p + 1, s);
        } else {
          Unreached(m, p + 1, next, s);
          ScanIsRun(m, p + 1, next);
          RunClimbs(next, m[p + 1..FieldEnd(m, p + 1)]);
        }
      }
    }
  }

  lemma PassesHere(m: seq<U8>, p: nat, s: CoreState)
    requires Terminated(m, p)
    ensures Passes(m, p, s, s)
  {
    assert m[p..p] == [];
  }

  lemma PassesOnlyHere(m: seq<U8>, p: nat, state: CoreState, s: CoreState)
    requires Terminated(m, p) && (m[p] == NUL || m[p] == COMMA)
    ensures Passes(m, p, state, s) <==> state == s
  {
    assert m[p..p] == [];
  }

  lemma OnlyInvalid(m: seq<U8>, p: nat, s: CoreState)
    requires Terminated(m, p) && s != Invalid
    ensures !Passes(m, p, Invalid, s)
  {
    hide Next, Run, FieldEnd;
    forall k | p <= k <= FieldEnd(m, p) ensures Run(Invalid, m[p..k]) != s {
      RunInvalid(m[p..k]);
    }
  }

  /** The call ends in INVALID, from START or from inside an exponent. */
  ghost predicate GivenUp(m: seq<U8>, p: nat, state: CoreState)
    requires Terminated(m, p)
  {
    var (f, q) := Scan(m, p, state);
    f == Invalid && p < q && (Run(state, m[p..q - 1]) == Start || Run(state, m[p..q - 1]) == Scientific)
  }

  lemma GivenUpNow(m: seq<U8>, p: nat, state: CoreState)
    requires Terminated(m, p) && m[p] != NUL && m[p] != COMMA && state != Invalid && Next(state, m[p]) == Invalid
    ensures GivenUp(m, p, state) <==> state == Start || state == Scientific
    ensures !GivenUp(m, p + 1, Invalid)
  {
    hide Next, Run;
    RunNothing(state);
    assert Scan(m, p + 1, Invalid) == (Invalid, p + 1);
    assert m[p..p + 1 - 1] == [];
  }

  lemma ScanNext(m: seq<U8>, p: nat, state: CoreState)
    requires Terminated(m, p) && m[p] != NUL && m[p] != COMMA && state != Invalid
    ensures Scan(m, p, state) == Scan(m, p + 1, Next(state, m[p]))
  {
    hide Next;
  }

  lemma GivenUpLater(m: seq<U8>, p: nat, state: CoreState)
    requires Terminated(m, p) && m[p] != NUL && m[p] != COMMA && state != Invalid && Next(state, m[p]) != Invalid
    ensures GivenUp(m, p, state) <==> GivenUp(m, p + 1, Next(state, m[p]))
  {
    hide Next, Run, FieldEnd, Scan;
    var (f, q) := Scan(m, p + 1, Next(state, m[p]));
    ScanNext(m, p, state);
    if f == Invalid {
      InvalidConsumes(m, p + 1, Next(state, m[p]));
      RunStep(m, p, q - 1, state);
    }
  }

  lemma InvalidConsumes(m: seq<U8>, p: nat, state: CoreState)
    requires Terminated(m, p) && state != Invalid && Scan(m, p, state).0 == Invalid
    ensures p < Scan(m, p, state).1 <= |m|
  {
    hide Next, Run, Scan;
    ScanIsRun(m, p, state);
  }

  /** The other two counters: one never moves, and one counts texts given up at the first byte or in an exponent. */
  lemma {:induction false} CounterOfFailures(m: seq<U8>, p: nat, state: CoreState)
    requires Terminated(m, p)
    ensures CallBumps(m, p, state, Scientific) == 0
    ensures CallBumps(m, p, state, Invalid) == if GivenUp(m, p, state) then 1 else 0
    decreases |m| - p
  {
    hide Next, Run, Bumps, FieldEnd;
    if m[p] != NUL && m[p] != COMMA && state != Invalid {
      hide GivenUp, Scan;
      var next := Next(state, m[p]);
      CounterOfFailures(m, p + 1, next);
      BumpOfFailure(state, m[p]);
      if next == Invalid {
        GivenUpNow(m, p, state);
      } else {
        GivenUpLater(m, p, state);
      }
    }
  }

  lemma BumpOfFailure(state: CoreState, c: U8)
    ensures Bumps(state, c, Scientific) == 0
    ensures Bumps(state, c, Invalid) == if state in {Start, Scientific} && Next(state, c) == Invalid then 1 else 0
  {}
}
