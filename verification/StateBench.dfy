/**
 `core_state.c`: the state machine benchmark. It scans a block, corrupts it with a stride, scans it again and
 undoes the corruption; `core_init_state` builds the block.
 */
module StateBench {
  import Crc
  import opened Numbers
  import opened StateMachine

  // ----- vectors of 32-bit counters -----

  type Counters = c: seq<U32> | |c| == STATES witness seq(STATES, i => 0)

  type Amounts = c: seq<nat> | |c| == STATES witness seq(STATES, i => 0)

  /** Counters after being raised, with wrap-around. */
  function Raised(c: Counters, a: Amounts): Counters {
    seq(STATES, i requires 0 <= i < STATES => (c[i] + a[i]) % W32)
  }

  function Plus(a: Amounts, b: Amounts): Amounts { seq(STATES, i requires 0 <= i < STATES => a[i] + b[i]) }

  function Zero(): Amounts { seq(STATES, i => 0) }

  function One(s: CoreState): Amounts {
    seq(STATES, i requires 0 <= i < STATES => if Numbered(i) == s then 1 else 0)
  }

  lemma RaisedTwice(c: Counters, a: Amounts, b: Amounts)
    ensures Raised(Raised(c, a), b) == Raised(c, Plus(a, b))
  {
    forall i | 0 <= i < STATES ensures Raised(Raised(c, a), b)[i] == Raised(c, Plus(a, b))[i] {
      SumWraps(c[i], a[i], b[i]);
    }
  }

  lemma SumWraps(x: int, a: int, b: int)
    ensures ((x + a) % W32 + b) % W32 == (x + (a + b)) % W32
  {}

  lemma RaisedByZero(c: Counters)
    ensures Raised(c, Zero()) == c
  {}

  // ----- one call of the scanner -----

  method Bump(counts: array<U32>, s: CoreState)
    requires counts.Length == STATES
    modifies counts
    ensures counts[..] == Raised(old(counts[..]), One(s))
  {
    NumberedNumber(s);
    OneIsOneOnly(s);
    counts[Number(s)] := (counts[Number(s)] + 1) % W32;
    assert counts[..] == Raised(old(counts[..]), One(s));
  }

  lemma OneIsOneOnly(s: CoreState)
    ensures forall i :: 0 <= i < STATES ==> One(s)[i] == if i == Number(s) then 1 else 0
  {}

  /** What one transition adds to the counters. */
  function StepAmounts(state: CoreState, c: U8): Amounts {
    seq(STATES, i requires 0 <= i < STATES => Bumps(state, c, Numbered(i)))
  }

  lemma StepAmountsOf(state: CoreState, c: U8)
    ensures state == Start && Next(state, c) == Invalid ==> StepAmounts(state, c) == Plus(One(Invalid), One(Start))
    ensures state == Start && Next(state, c) != Invalid ==> StepAmounts(state, c) == One(Start)
    ensures state in {S1, S2, Exponent} ==> StepAmounts(state, c) == One(state)
    ensures state in {Int, Float} && Next(state, c) != state ==> StepAmounts(state, c) == One(state)
    ensures state == Scientific && Next(state, c) == Invalid ==> StepAmounts(state, c) == One(Invalid)
    ensures state in {Int, Float, Scientific} && Next(state, c) == state ==> StepAmounts(state, c) == Zero()
    ensures state == Invalid ==> StepAmounts(state, c) == Zero()
  {
    hide Next;
  }

  lemma NextOf(state: CoreState, c: U8)
    ensures state == Start ==> Next(state, c) ==
                               if IsDigit(c) then Int else if IsSign(c) then S1 else if c == DOT then Float else Invalid
    ensures state == S1 ==> Next(state, c) == if IsDigit(c) then Int else if c == DOT then Float else Invalid
    ensures state == Int ==> Next(state, c) == if c == DOT then Float else if IsDigit(c) then Int else Invalid
    ensures state == Float ==> Next(state, c) == if IsE(c) then S2 else if IsDigit(c) then Float else Invalid
    ensures state == S2 ==> Next(state, c) == if IsSign(c) then Exponent else Invalid
    ensures state == Exponent ==> Next(state, c) == if IsDigit(c) then Scientific else Invalid
    ensures state == Scientific ==> Next(state, c) == if IsDigit(c) then Scientific else Invalid
    ensures state == Invalid ==> Next(state, c) == Invalid
  {}

  /** The `switch` of `core_state_transition`. */
  method Transition(state0: CoreState, c: U8, counts: array<U32>) returns (state: CoreState)
    requires counts.Length == STATES
    modifies counts
    ensures state == Next(state0, c)
    ensures counts[..] == Raised(old(counts[..]), StepAmounts(state0, c))
  {
    hide *;
    NextOf(state0, c);
    StepAmountsOf(state0, c);
    RaisedByZero(counts[..]);
    RaisedTwice(counts[..], One(Invalid), One(Start));
    state := state0;
    match state0 {
      case Start =>
        if IsDigit(c) {
          state := Int;
        } else if IsSign(c) {
          state := S1;
        } else if c == DOT {
          state := Float;
        } else {
          state := Invalid;
          Bump(counts, Invalid);
        }
        Bump(counts, Start);
      case S1 =>
        if IsDigit(c) {
          state := Int;
          Bump(counts, S1);
        } else if c == DOT {
          state := Float;
          Bump(counts, S1);
        } else {
          state := Invalid;
          Bump(counts, S1);
        }
      case Int =>
        if c == DOT {
          state := Float;
          Bump(counts, Int);
        } else if !IsDigit(c) {
          state := Invalid;
          Bump(counts, Int);
        }
      case Float =>
        if IsE(c) {
          state := S2;
          Bump(counts, Float);
        } else if !IsDigit(c) {
          state := Invalid;
          Bump(counts, Float);
        }
      case S2 =>
        if IsSign(c) {
          state := Exponent;
          Bump(counts, S2);
        } else {
          state := Invalid;
          Bump(counts, S2);
        }
      case Exponent =>
        if IsDigit(c) {
          state := Scientific;
          Bump(counts, Exponent);
        } else {
          state := Invalid;
          Bump(counts, Exponent);
        }
      case Scientific =>
        if !IsDigit(c) {
          state := Invalid;
          Bump(counts, Invalid);
        }
      case Invalid =>
    }
  }

  /** What the rest of a call adds to the counters. */
  function CallAmounts(m: seq<U8>, p: nat, state: CoreState): Amounts
    requires Terminated(m, p)
  {
    seq(STATES, i requires 0 <= i < STATES => CallBumps(m, p, state, Numbered(i)))
  }

  /** One iteration of the scan, seen from outside. */
  lemma ScanStep(m: seq<U8>, p: nat, state: CoreState)
    requires Terminated(m, p)
    ensures p < |m|
    ensures m[p] == NUL || state == Invalid ==>
              Scan(m, p, state) == (state, p) && CallAmounts(m, p, state) == Zero()
    ensures m[p] != NUL && state != Invalid && m[p] == COMMA ==>
              Scan(m, p, state) == (state, p + 1) && CallAmounts(m, p, state) == Zero()
    ensures m[p] != NUL && state != Invalid && m[p] != COMMA ==>
              && Terminated(m, p + 1) && Scan(m, p, state) == Scan(m, p + 1, Next(state, m[p]))
              && CallAmounts(m, p, state) == Plus(StepAmounts(state, m[p]), CallAmounts(m, p + 1, Next(state, m[p])))
  {
    hide Next, Bumps;
  }

  /** `core_state_transition` */
  method CoreStateTransition(m: array<U8>, instr: nat, counts: array<U32>) returns (state: CoreState, str: nat)
    requires Terminated(m[..], instr) && counts.Length == STATES && m as object != counts as object
    modifies counts
    ensures (state, str) == Scan(m[..], instr, Start)
    ensures counts[..] == Raised(old(counts[..]), CallAmounts(m[..], instr, Start))
  {
    hide *;
    str := instr;
    state := Start;
    ScanStep(m[..], str, state);
    while m[str] != NUL && state != Invalid
      invariant Terminated(m[..], str) && str < m.Length
      invariant Scan(m[..], instr, Start) == Scan(m[..], str, state)
      invariant Raised(counts[..], CallAmounts(m[..], str, state)) ==
                Raised(old(counts[..]), CallAmounts(m[..], instr, Start))
      decreases m.Length - str
    {
      ScanStep(m[..], str, state);
      if m[str] == COMMA {
        RaisedByZero(counts[..]);
        str := str + 1;
        return;
      }
      RaisedTwice(counts[..], StepAmounts(state, m[str]), CallAmounts(m[..], str + 1, Next(state, m[str])));
      state := Transition(state, m[str], counts);
      str := str + 1;
      ScanStep(m[..], str, state);
    }
    ScanStep(m[..], str, state);
    RaisedByZero(counts[..]);
  }

  // ----- one pass over a block -----

  /** The states that the calls of one pass return. */
  function Tokens(m: seq<U8>, p: nat): seq<CoreState>
    requires Terminated(m, p)
    decreases |m| - p
  {
    if m[p] == NUL then [] else var (s, q) := Scan(m, p, Start); [s] + Tokens(m, q)
  }

  function PassAmounts(m: seq<U8>, p: nat): Amounts
    requires Terminated(m, p)
    decreases |m| - p
  {
    if m[p] == NUL then Zero() else Plus(CallAmounts(m, p, Start), PassAmounts(m, Scan(m, p, Start).1))
  }

  /** How often each state was returned. */
  function Tally(ts: seq<CoreState>): Amounts {
    if ts == [] then Zero() else Plus(One(ts[0]), Tally(ts[1..]))
  }

  function Sum(a: seq<int>): int
    requires |a| == STATES
  {
    a[0] + a[1] + a[2] + a[3] + a[4] + a[5] + a[6] + a[7]
  }

  /** `final_counts` adds up to the number of calls. */
  lemma {:induction false} TallyAddsUp(ts: seq<CoreState>)
    ensures Sum(Tally(ts)) == |ts|
  {
    if ts != [] {
      TallyAddsUp(ts[1..]);
      OneIsOneOnly(ts[0]);
      NumberedNumber(ts[0]);
    }
  }

  /** With fewer than 2^32 calls no counter wraps around. */
  lemma FinalCountsAddUp(ts: seq<CoreState>)
    requires |ts| < W32
    ensures Sum(Raised(Zero(), Tally(ts))) == |ts|
  {
    hide Raised, Zero, Tally, Sum;
    TallyAddsUp(ts);
    RaisedFromZero(Tally(ts));
  }

  lemma RaisedFromZero(t: Amounts)
    requires Sum(t) < W32
    ensures Raised(Zero(), t) == t
  {
    PartsOfSum(t);
    hide Sum;
    forall i | 0 <= i < STATES ensures Raised(Zero(), t)[i] == t[i] {
      assert Raised(Zero(), t)[i] == (0 + t[i]) % W32;
    }
  }

  lemma PartsOfSum(t: Amounts)
    ensures forall i :: 0 <= i < STATES ==> t[i] <= Sum(t)
  {
    assert t[0] >= 0 && t[1] >= 0 && t[2] >= 0 && t[3] >= 0 && t[4] >= 0 && t[5] >= 0 && t[6] >= 0 && t[7] >= 0;
  }

  /** Every call consumes something, so a pass makes fewer calls than there are bytes. */
  lemma {:induction false} CallsAreBounded(m: seq<U8>, p: nat)
    requires Terminated(m, p)
    ensures |Tokens(m, p)| < |m| - p
    decreases |m| - p
  {
    if m[p] != NUL {
      CallsAreBounded(m, Scan(m, p, Start).1);
    }
  }

  /** Each call either leaves the start state once, which the counters record, or returns it. */
  lemma {:induction false} StartBalance(m: seq<U8>, p: nat)
    requires Terminated(m, p)
    ensures PassAmounts(m, p)[Number(Start)] + Tally(Tokens(m, p))[Number(Start)] == |Tokens(m, p)|
    decreases |m| - p
  {
    hide Scan, Run, FieldEnd, CallBumps, Bumps;
    if m[p] != NUL {
      var (s, q) := Scan(m, p, Start);
      StartBalance(m, q);
      CounterIsDeparture(m, p, Start, Start);
      PassesHere(m, p, Start);
      var ts := Tokens(m, p);
      assert ts[1..] == Tokens(m, q) && ts[0] == s;
      assert PassAmounts(m, p) == Plus(CallAmounts(m, p, Start), PassAmounts(m, q));
    }
  }

  /** The scanning loop of `core_bench_state`, run twice: the buffer is scanned to its terminator. */
  method ScanPass(m: array<U8>, finals: array<U32>, track: array<U32>)
    requires Terminated(m[..], 0) && finals.Length == track.Length == STATES && finals != track
    requires m as object != finals as object && m as object != track as object
    modifies finals, track
    ensures finals[..] == Raised(old(finals[..]), Tally(Tokens(m[..], 0)))
    ensures track[..] == Raised(old(track[..]), PassAmounts(m[..], 0))
  {
    hide *;
    var p := 0;
    PassStep(m[..], p);
    while m[p] != NUL
      invariant Terminated(m[..], p) && p < m.Length
      invariant Raised(finals[..], Tally(Tokens(m[..], p))) == Raised(old(finals[..]), Tally(Tokens(m[..], 0)))
      invariant Raised(track[..], PassAmounts(m[..], p)) == Raised(old(track[..]), PassAmounts(m[..], 0))
      decreases m.Length - p
    {
      PassStep(m[..], p);
      ghost var q := Scan(m[..], p, Start).1;
      RaisedTwice(finals[..], One(Scan(m[..], p, Start).0), Tally(Tokens(m[..], q)));
      RaisedTwice(track[..], CallAmounts(m[..], p, Start), PassAmounts(m[..], q));
      var state;
      state, p := CoreStateTransition(m, p, track);
      Bump(finals, state);
      PassStep(m[..], p);
    }
    PassStep(m[..], p);
    RaisedByZero(finals[..]);
    RaisedByZero(track[..]);
  }

  lemma PassStep(m: seq<U8>, p: nat)
    requires Terminated(m, p)
    ensures p < |m|
    ensures m[p] == NUL ==> Tally(Tokens(m, p)) == Zero() && PassAmounts(m, p) == Zero()
    ensures m[p] != NUL ==>
              var (s, q) := Scan(m, p, Start);
              && p < q && Terminated(m, q) && q < |m|
              && Tally(Tokens(m, p)) == Plus(One(s), Tally(Tokens(m, q)))
              && PassAmounts(m, p) == Plus(CallAmounts(m, p, Start), PassAmounts(m, q))
  {
    hide Scan, One, Plus, Zero, CallAmounts;
    if m[p] != NUL {
      var (s, q) := Scan(m, p, Start);
      assert Tokens(m, p)[1..] == Tokens(m, q);
    }
  }

  // ----- corruption -----

  function Xor(c: U8, x: U8): U8 { c ^ x }

  function Flip(c: U8, x: U8): U8 { if c != COMMA then Xor(c, x) else c }

  /** The first `n` bytes with every `step`-th one changed, unless it is a comma. */
  function Corrupted(m: seq<U8>, n: nat, x: U8, step: nat): (r: seq<U8>)
    requires n <= |m| && step > 0
    ensures |r| == |m|
  {
    seq(|m|, i requires 0 <= i < |m| => if i < n && i % step == 0 then Flip(m[i], x) else m[i])
  }

  lemma StrideGap(p: nat, step: nat, i: nat)
    requires step > 0 && p % step == 0 && p < i < p + step
    ensures i % step != 0
  {
    DivModUnique(i, step, p / step, i - p);
  }

  lemma StrideNext(p: nat, step: nat)
    requires step > 0 && p % step == 0
    ensures (p + step) % step == 0
  {
    DivModUnique(p + step, step, p / step + 1, 0);
  }

  /** The loops of `core_bench_state` that insert and remove the corruption. */
  method Corrupt(m: array<U8>, n: nat, x: U8, step: nat)
    requires n <= m.Length && step > 0
    modifies m
    ensures m[..] == Corrupted(old(m[..]), n, x, step)
  {
    hide Xor;
    ghost var was := m[..];
    var p := 0;
    while p < n
      invariant p % step == 0
      invariant forall i :: 0 <= i < m.Length ==>
                  m[i] == if i < p && i < n && i % step == 0 then Flip(was[i], x) else was[i]
    {
      XorIs(m[p], x);
      if m[p] != COMMA {
        m[p] := m[p] ^ x;
      }
      forall i: nat | p < i < p + step ensures i % step != 0 {
        StrideGap(p, step, i);
      }
      StrideNext(p, step);
      p := p + step;
    }
    assert m[..] == Corrupted(was, n, x, step);
  }

  lemma XorIs(c: U8, x: U8)
    ensures Xor(c, x) == c ^ x
  {}

  lemma FlipBack(c: U8, x: U8, y: U8)
    ensures Flip(Flip(c, x), y) == c <==> c == COMMA || (Xor(c, x) != COMMA && x == y)
  {
    hide Xor;
    XorTwice(c, x);
    if Xor(Xor(c, x), y) == c {
      XorMixed(c, x, y);
    }
  }

  lemma XorTwice(c: U8, x: U8)
    ensures Xor(Xor(c, x), x) == c
  {}

  lemma XorMixed(c: U8, x: U8, y: U8)
    requires Xor(Xor(c, x), y) == c
    ensures x == y
  {}

  /** The second pass undoes the first exactly when the seeds agree and no changed byte became a comma. */
  lemma UndoneExactlyWhen(m: seq<U8>, n: nat, x: U8, y: U8, step: nat)
    requires n <= |m| && step > 0
    ensures Corrupted(Corrupted(m, n, x, step), n, y, step) == m <==>
            forall i :: 0 <= i < n && i % step == 0 ==> m[i] == COMMA || (Xor(m[i], x) != COMMA && x == y)
  {
    hide Flip, Xor;
    var r := Corrupted(Corrupted(m, n, x, step), n, y, step);
    forall i | 0 <= i < |m|
      ensures r[i] == if i < n && i % step == 0 then Flip(Flip(m[i], x), y) else m[i]
      ensures r[i] == m[i] <==>
              (i < n && i % step == 0 ==> m[i] == COMMA || (Xor(m[i], x) != COMMA && x == y))
    {
      FlipBack(m[i], x, y);
    }
    assert r == m <==> forall i :: 0 <= i < |m| ==> r[i] == m[i];
  }

  // ----- the benchmark -----

  /** The CRC over the first `n` pairs of counters. */
  function CountersCrc(finals: Counters, track: Counters, n: nat, crc: bv16): bv16
    requires n <= STATES
  {
    if n == 0 then crc
    else
      var before := Crc.CrcBits(CountersCrc(finals, track, n - 1, crc), Crc.Bits32(finals[n - 1] as bv32));
      Crc.CrcBits(before, Crc.Bits32(track[n - 1] as bv32))
  }

  method NewCounters() returns (c: array<U32>)
    ensures fresh(c) && c.Length == STATES && c[..] == Zero()
  {
    c := new U32[STATES](_ => 0);
    assert c[..] == Zero();
  }

  method CrcOfCounters(finals: array<U32>, track: array<U32>, crc0: bv16) returns (crc: bv16)
    requires finals.Length == track.Length == STATES
    ensures crc == CountersCrc(finals[..], track[..], STATES, crc0)
  {
    hide CountersCrc, Crc.CrcBits, Crc.Bits32;
    crc := crc0;
    CrcOfNone(finals[..], track[..], crc0);
    for i := 0 to STATES
      invariant crc == CountersCrc(finals[..], track[..], i, crc0)
    {
      CrcOfNext(finals[..], track[..], i, crc0);
      crc := Crc.Crcu32(finals[i] as bv32, crc);
      crc := Crc.Crcu32(track[i] as bv32, crc);
    }
  }

  lemma {:induction false} TallyConcat(s: seq<CoreState>, t: seq<CoreState>)
    ensures Tally(s + t) == Plus(Tally(s), Tally(t))
  {
    hide One;
    if s == [] {
      assert s + t == t;
    } else {
      TallyConcat(s[1..], t);
      assert (s + t)[1..] == s[1..] + t;
    }
  }

  lemma CrcOfNone(finals: Counters, track: Counters, crc: bv16)
    ensures CountersCrc(finals, track, 0, crc) == crc
  {}

  lemma CrcOfNext(finals: Counters, track: Counters, n: nat, crc: bv16)
    requires n < STATES
    ensures CountersCrc(finals, track, n + 1, crc) ==
            Crc.CrcBits(Crc.CrcBits(CountersCrc(finals, track, n, crc), Crc.Bits32(finals[n] as bv32)),
                        Crc.Bits32(track[n] as bv32))
  {}

  /** The counters of one state as they enter the CRC: the final one, then the track one. */
  function Pair(finals: Counters, track: Counters, i: nat): seq<bool>
    requires i < STATES
  {
    Crc.Bits32(finals[i] as bv32) + Crc.Bits32(track[i] as bv32)
  }

  /** The CRC is that of sixteen words in this order. */
  lemma CountersInOrder(finals: Counters, track: Counters, crc: bv16)
    ensures CountersCrc(finals, track, STATES, crc) ==
            Crc.CrcBits(crc, Pair(finals, track, 0) + Pair(finals, track, 1) + Pair(finals, track, 2) +
                             Pair(finals, track, 3) + Pair(finals, track, 4) + Pair(finals, track, 5) +
                             Pair(finals, track, 6) + Pair(finals, track, 7))
  {
    hide CountersCrc, Crc.CrcBits, Pair;
    var m := Pair(finals, track, 0);
    CrcOfNone(finals, track, crc);
    CrcOfPair(finals, track, 0, crc, []);
    assert [] + m == m;
    CrcOfPair(finals, track, 1, crc, m);
    m := m + Pair(finals, track, 1);
    CrcOfPair(finals, track, 2, crc, m);
    m := m + Pair(finals, track, 2);
    CrcOfPair(finals, track, 3, crc, m);
    m := m + Pair(finals, track, 3);
    CrcOfPair(finals, track, 4, crc, m);
    m := m + Pair(finals, track, 4);
    CrcOfPair(finals, track, 5, crc, m);
    m := m + Pair(finals, track, 5);
    CrcOfPair(finals, track, 6, crc, m);
    m := m + Pair(finals, track, 6);
    CrcOfPair(finals, track, 7, crc, m);
  }

  lemma CrcOfPair(finals: Counters, track: Counters, i: nat, crc: bv16, before: seq<bool>)
    requires i < STATES
    ensures CountersCrc(finals, track, i, crc) == Crc.CrcBits(crc, before) ==>
              CountersCrc(finals, track, i + 1, crc) == Crc.CrcBits(crc, before + Pair(finals, track, i))
    ensures Crc.CrcBits(crc, []) == crc
  {
    hide CountersCrc, Crc.Bits32;
    CrcOfNext(finals, track, i, crc);
    var f, t := Crc.Bits32(finals[i] as bv32), Crc.Bits32(track[i] as bv32);
    Crc.CrcConcat(crc, before, f);
    Crc.CrcConcat(crc, before + f, t);
    assert before + f + t == before + (f + t);
  }

  /** `core_bench_state` */
  method CoreBenchState(blksize: nat, memblock: array<U8>, seed1: bv16, seed2: bv16, step: nat, crc0: bv16)
    returns (crc: bv16)
    requires blksize <= memblock.Length && step > 0
    requires Terminated(memblock[..], 0)
    requires Terminated(Corrupted(memblock[..], blksize, Crc.Low8(seed1), step), 0)
    modifies memblock
    ensures var was := old(memblock[..]);
            var corrupted := Corrupted(was, blksize, Crc.Low8(seed1), step);
            && memblock[..] == Corrupted(corrupted, blksize, Crc.Low8(seed2), step)
            && crc == CountersCrc(Raised(Zero(), Tally(Tokens(was, 0) + Tokens(corrupted, 0))),
                                  Raised(Zero(), Plus(PassAmounts(was, 0), PassAmounts(corrupted, 0))),
                                  STATES, crc0)
  {
    hide *;
    ghost var was := memblock[..];
    ghost var corrupted := Corrupted(was, blksize, Crc.Low8(seed1), step);
    var finals := NewCounters();
    var track := NewCounters();
    RaisedTwice(Zero(), Tally(Tokens(was, 0)), Tally(Tokens(corrupted, 0)));
    TallyConcat(Tokens(was, 0), Tokens(corrupted, 0));
    RaisedTwice(Zero(), PassAmounts(was, 0), PassAmounts(corrupted, 0));
    ScanPass(memblock, finals, track);
    Corrupt(memblock, blksize, Crc.Low8(seed1), step);
    ScanPass(memblock, finals, track);
    Corrupt(memblock, blksize, Crc.Low8(seed2), step);
    crc := CrcOfCounters(finals, track, crc0);
  }
}
