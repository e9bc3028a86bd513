/**
 The sense-reversing barrier of `util.h`, as a state machine over the atomic accesses to the shared
 `count` and `sense`, for any number of threads, under sequential consistency.
 */
module Barrier {
  import opened Finite

  /** Where a thread is: outside the barrier, before the fetch-and-add, about to clear `count`, about to
      write `sense`, in the spin loop, or past it. */
  datatype Pc = Outside | Entered | Clear | Publish | Spin | Leave

  /** A thread: its program counter, its own `threadsense`, and how often it has called and returned. */
  datatype Thread = Thread(pc: Pc, threadsense: bool, calls: nat, done: nat)

  datatype State = State(sense: bool, count: int, threads: seq<Thread>)

  datatype Action = Call | FetchAdd | ClearCount | SetSense | Look | Return

  function Initial(ncores: nat): State {
    State(false, 0, seq(ncores, i => Thread(Outside, false, 0, 0)))
  }

  /** Thread `i` can do `a` next. */
  predicate Enabled(s: State, i: nat, a: Action) {
    i < |s.threads| &&
    match a
    case Call => s.threads[i].pc == Outside
    case FetchAdd => s.threads[i].pc == Entered
    case ClearCount => s.threads[i].pc == Clear
    case SetSense => s.threads[i].pc == Publish
    case Look => s.threads[i].pc == Spin
    case Return => s.threads[i].pc == Leave
  }

  function Do(s: State, i: nat, a: Action): (s': State)
    requires Enabled(s, i, a)
    ensures |s'.threads| == |s.threads| && forall j :: 0 <= j < |s.threads| && j != i ==> s'.threads[j] == s.threads[j]
  {
    var t := s.threads[i];
    var ncores := |s.threads|;
    match a
    case Call =>
      s.(threads := s.threads[i := t.(pc := Entered, threadsense := !t.threadsense, calls := t.calls + 1)])
    case FetchAdd =>
      s.(count := s.count + 1, threads := s.threads[i := t.(pc := if s.count == ncores - 1 then Clear else Spin)])
    case ClearCount =>
      s.(count := 0, threads := s.threads[i := t.(pc := Publish)])
    case SetSense =>
      s.(sense := t.threadsense, threads := s.threads[i := t.(pc := Leave)])
    case Look =>
      if s.sense != t.threadsense then s else s.(threads := s.threads[i := t.(pc := Leave)])
    case Return =>
      s.(threads := s.threads[i := t.(pc := Outside, done := t.done + 1)])
  }

  /** One action of one thread. */
  ghost predicate Next(s: State, s': State) { exists i: nat, a :: Enabled(s, i, a) && s' == Do(s, i, a) }

  /** A run: its first state is the initial one, and each next state is the result of one action of one thread. */
  ghost predicate IsRun(run: seq<State>, ncores: nat) {
    && run != [] && run[0] == Initial(ncores)
    && forall k :: 0 < k < |run| ==> Next(run[k - 1], run[k])
  }

  // ----- the invariant -----

  predicate Odd(n: nat) { n % 2 == 1 }

  /** Who has added to `count` in round `r + 1`. */
  ghost function Arrived(s: State, r: nat): set<nat> {
    set i: nat | i < |s.threads| && s.threads[i].calls == r + 1 && s.threads[i].pc != Entered
  }

  /** One thread, when `r` rounds have been released. */
  ghost predicate ThreadInv(t: Thread, r: nat) {
    && t.threadsense == Odd(t.calls)
    && (t.calls == r || t.calls == r + 1)
    && (if t.calls == r then t.pc in {Outside, Leave, Spin} else t.pc in {Entered, Spin, Clear, Publish})
    && t.calls == t.done + (if t.pc == Outside then 0 else 1)
  }

  ghost predicate IsLast(t: Thread) { t.pc == Clear || t.pc == Publish }

  /** All threads but `i` wait for round `r + 1` to be released. */
  ghost predicate OthersWait(s: State, i: nat, r: nat) {
    forall j :: 0 <= j < |s.threads| && j != i ==> s.threads[j].calls == r + 1 && s.threads[j].pc == Spin
  }

  ghost predicate Inv(s: State, r: nat) {
    && |s.threads| >= 1
    && s.sense == Odd(r)
    && (forall i :: 0 <= i < |s.threads| ==> ThreadInv(s.threads[i], r))
    && (forall i :: 0 <= i < |s.threads| && IsLast(s.threads[i]) ==>
          OthersWait(s, i, r) && s.count == if s.threads[i].pc == Clear then |s.threads| else 0)
    && ((forall i :: 0 <= i < |s.threads| ==> !IsLast(s.threads[i])) ==>
          s.count == |Arrived(s, r)| < |s.threads|)
  }

  lemma InitialInv(ncores: nat)
    requires ncores >= 1
    ensures Inv(Initial(ncores), 0)
  {
    assert Arrived(Initial(ncores), 0) == {};
  }

  /** The number of released rounds after an action. */
  ghost function NextRound(r: nat, a: Action): nat { if a == SetSense then r + 1 else r }

  lemma ArrivedIsSmall(s: State, r: nat)
    ensures Arrived(s, r) <= Interval(|s.threads|) && |Arrived(s, r)| <= |s.threads|
  {
    SubsetSize(Arrived(s, r), Interval(|s.threads|));
  }

  /** While a thread is not in the spin loop, no other thread is about to release the round. */
  lemma NobodyIsLast(s: State, r: nat, i: nat)
    requires Inv(s, r) && i < |s.threads| && s.threads[i].pc in {Outside, Entered, Leave}
    ensures forall j :: 0 <= j < |s.threads| ==> !IsLast(s.threads[j])
    ensures s.count == |Arrived(s, r)| < |s.threads|
  {}

  lemma CallKeepsInv(s: State, r: nat, i: nat)
    requires Inv(s, r) && Enabled(s, i, Call)
    ensures Inv(Do(s, i, Call), r)
  {
    var s' := Do(s, i, Call);
    NobodyIsLast(s, r, i);
    assert ThreadInv(s'.threads[i], r);
    assert Arrived(s', r) == Arrived(s, r);
  }

  lemma ArrivedAfterFetchAdd(s: State, r: nat, i: nat)
    requires Inv(s, r) && Enabled(s, i, FetchAdd)
    ensures var s' := Do(s, i, FetchAdd);
            Arrived(s', r) == Arrived(s, r) + {i} && |Arrived(s', r)| == |Arrived(s, r)| + 1
  {}

  lemma EveryoneArrived(s: State, r: nat)
    requires |Arrived(s, r)| == |s.threads|
    ensures forall j :: 0 <= j < |s.threads| ==> s.threads[j].calls == r + 1 && s.threads[j].pc != Entered
  {
    ArrivedIsSmall(s, r);
    SubsetOfSameSize(Arrived(s, r), Interval(|s.threads|));
    forall j | 0 <= j < |s.threads| ensures s.threads[j].calls == r + 1 && s.threads[j].pc != Entered {
      assert j in Interval(|s.threads|) && j in Arrived(s, r);
    }
  }

  lemma FetchAddKeepsInv(s: State, r: nat, i: nat)
    requires Inv(s, r) && Enabled(s, i, FetchAdd)
    ensures Inv(Do(s, i, FetchAdd), r)
  {
    hide Arrived;
    var s' := Do(s, i, FetchAdd);
    var n := |s.threads|;
    NobodyIsLast(s, r, i);
    ArrivedAfterFetchAdd(s, r, i);
    ArrivedIsSmall(s', r);
    assert ThreadInv(s'.threads[i], r);
    forall j | 0 <= j < n ensures ThreadInv(s'.threads[j], r) && (j != i ==> !IsLast(s'.threads[j])) {}
    if s.count == n - 1 {
      EveryoneArrived(s', r);
      forall j | 0 <= j < n && j != i ensures s'.threads[j].calls == r + 1 && s'.threads[j].pc == Spin {
        assert ThreadInv(s'.threads[j], r) && !IsLast(s'.threads[j]);
      }
      assert IsLast(s'.threads[i]);
    }
  }

  lemma SetSenseKeepsInv(s: State, r: nat, i: nat)
    requires Inv(s, r) && Enabled(s, i, SetSense)
    ensures Inv(Do(s, i, SetSense), r + 1)
  {
    assert IsLast(s.threads[i]);
    assert Arrived(Do(s, i, SetSense), r + 1) == {};
  }

  lemma ReturnKeepsInv(s: State, r: nat, i: nat)
    requires Inv(s, r) && Enabled(s, i, Return)
    ensures Inv(Do(s, i, Return), r)
  {
    NobodyIsLast(s, r, i);
    assert Arrived(Do(s, i, Return), r) == Arrived(s, r);
  }

  lemma LookKeepsInv(s: State, r: nat, i: nat)
    requires Inv(s, r) && Enabled(s, i, Look)
    ensures Inv(Do(s, i, Look), r)
  {
    assert ThreadInv(s.threads[i], r);
    assert Arrived(Do(s, i, Look), r) == Arrived(s, r);
  }

  lemma ClearCountKeepsInv(s: State, r: nat, i: nat)
    requires Inv(s, r) && Enabled(s, i, ClearCount)
    ensures Inv(Do(s, i, ClearCount), r)
  {
    assert IsLast(s.threads[i]) && IsLast(Do(s, i, ClearCount).threads[i]);
  }

  lemma ActionKeepsInv(s: State, r: nat, i: nat, a: Action)
    requires Inv(s, r) && Enabled(s, i, a)
    ensures Inv(Do(s, i, a), NextRound(r, a))
  {
    hide Inv, Do;
    match a
    case Call => CallKeepsInv(s, r, i);
    case FetchAdd => FetchAddKeepsInv(s, r, i);
    case ClearCount => ClearCountKeepsInv(s, r, i);
    case SetSense => SetSenseKeepsInv(s, r, i);
    case Look => LookKeepsInv(s, r, i);
    case Return => ReturnKeepsInv(s, r, i);
  }

  /** Every state of every run satisfies the invariant, for some number of released rounds. */
  lemma {:induction false} RunInv(run: seq<State>, ncores: nat, k: nat) returns (r: nat)
    requires ncores >= 1 && IsRun(run, ncores) && k < |run|
    ensures Inv(run[k], r) && |run[k].threads| == ncores
  {
    hide Inv, Do, Enabled;
    if k == 0 {
      r := 0;
      InitialInv(ncores);
    } else {
      var r0 := RunInv(run, ncores, k - 1);
      assert Next(run[k - 1], run[k]);
      var i: nat, a :| Enabled(run[k - 1], i, a) && run[k] == Do(run[k - 1], i, a);
      ActionKeepsInv(run[k - 1], r0, i, a);
      r := NextRound(r0, a);
    }
  }

  /** `s` is a state of some run of `|s.threads|` threads. */
  ghost predicate Reachable(s: State) {
    exists run, k :: |s.threads| >= 1 && IsRun(run, |s.threads|) && 0 <= k < |run| && run[k] == s
  }

  lemma ReachableInv(s: State) returns (r: nat)
    requires Reachable(s)
    ensures Inv(s, r)
  {
    hide Inv;
    var run, k :| |s.threads| >= 1 && IsRun(run, |s.threads|) && 0 <= k < |run| && run[k] == s;
    r := RunInv(run, |s.threads|, k);
  }

  // ----- safety -----

  /** No thread returns from its k-th call before every thread has started its k-th call, and no thread is more than
      one round ahead of another. */
  lemma BarrierSafety(s: State, i: nat, j: nat)
    requires Reachable(s) && i < |s.threads| && j < |s.threads|
    ensures s.threads[i].done <= s.threads[j].calls <= s.threads[i].calls + 1
  {
    var r := ReachableInv(s);
    assert ThreadInv(s.threads[i], r) && ThreadInv(s.threads[j], r);
  }

  /** A round is released with `count` back at 0 and `sense` flipped, when every thread is in its barrier call. */
  lemma ReleaseFlipsSense(s: State, i: nat, j: nat)
    requires Reachable(s) && Enabled(s, i, SetSense) && j < |s.threads|
    ensures var s' := Do(s, i, SetSense);
            && s'.count == 0 && s'.sense == !s.sense
            && s'.threads[j].pc in {Spin, Leave} && s'.threads[j].threadsense == s'.sense
            && s'.threads[j].calls == s'.threads[i].calls
  {
    var r := ReachableInv(s);
    assert IsLast(s.threads[i]);
    assert ThreadInv(s.threads[i], r) && ThreadInv(s.threads[j], r);
  }

  // ----- progress -----

  /** The thread is in the barrier and its next action changes the state. */
  predicate CanMove(s: State, i: nat) {
    i < |s.threads| && s.threads[i].pc != Outside && (s.threads[i].pc == Spin ==> s.sense == s.threads[i].threadsense)
  }

  /** In no reachable state does everyone in the barrier wait, unless for a thread that has not called yet. */
  lemma NoDeadlock(s: State, i: nat)
    requires Reachable(s) && i < |s.threads| && s.threads[i].pc != Outside
    ensures || (exists j :: CanMove(s, j))
            || (exists j :: 0 <= j < |s.threads| && s.threads[j].pc == Outside &&
                             s.threads[j].calls + 1 == s.threads[i].calls)
  {
    var r := ReachableInv(s);
    if forall j: nat :: !CanMove(s, j) {
      forall j | 0 <= j < |s.threads| ensures s.threads[j].pc in {Outside, Spin} {
        assert !CanMove(s, j);
      }
      assert !CanMove(s, i) && ThreadInv(s.threads[i], r);
      assert |Arrived(s, r)| < |s.threads|;
      var j := NotArrived(s, r);
      assert !CanMove(s, j) && ThreadInv(s.threads[j], r);
    }
  }

  lemma NotArrived(s: State, r: nat) returns (j: nat)
    requires |Arrived(s, r)| < |s.threads|
    ensures j < |s.threads| && j !in Arrived(s, r)
  {
    ArrivedIsSmall(s, r);
    if forall k: nat :: k < |s.threads| ==> k in Arrived(s, r) {
      SubsetSize(Interval(|s.threads|), Arrived(s, r));
      assert false;
    }
    j :| j < |s.threads| && j !in Arrived(s, r);
  }

  /** How many actions a thread still needs until it is outside, at most. */
  function Rank(t: Thread): nat {
    match t.pc
    case Outside => 0
    case Leave => 1
    case Spin => 2
    case Publish => 2
    case Clear => 3
    case Entered => 4
  }

  function Work(threads: seq<Thread>): nat {
    if threads == [] then 0 else Rank(threads[0]) + Work(threads[1..])
  }

  lemma {:induction false} WorkUpdate(threads: seq<Thread>, i: nat, t: Thread)
    requires i < |threads|
    ensures Work(threads[i := t]) == Work(threads) - Rank(threads[i]) + Rank(t)
  {
    if i > 0 {
      WorkUpdate(threads[1..], i - 1, t);
      assert threads[i := t][1..] == threads[1..][i - 1 := t];
    }
  }

  /** Every action that changes the state, other than a new call, brings the end of the round nearer. */
  lemma MovingIsProgress(s: State, i: nat, a: Action)
    requires Enabled(s, i, a) && a != Call && CanMove(s, i)
    ensures Work(Do(s, i, a).threads) < Work(s.threads)
  {
    var t' := Do(s, i, a).threads[i];
    assert Do(s, i, a).threads == s.threads[i := t'];
    WorkUpdate(s.threads, i, t');
  }

  lemma {:induction false} NoWorkLeft(threads: seq<Thread>)
    ensures Work(threads) == 0 <==> forall i :: 0 <= i < |threads| ==> threads[i].pc == Outside
  {
    if threads != [] {
      NoWorkLeft(threads[1..]);
      assert forall i :: 0 <= i < |threads| ==> threads[i] == if i == 0 then threads[0] else threads[1..][i - 1];
    }
  }

  /** One action, by a thread in the barrier, that changes the state. */
  ghost predicate Move(s: State, s': State) {
    exists i: nat, a :: Enabled(s, i, a) && a != Call && CanMove(s, i) && s' == Do(s, i, a)
  }

  ghost predicate Moves(states: seq<State>) {
    states != [] && forall k :: 0 < k < |states| ==> Move(states[k - 1], states[k])
  }

  /** However the threads are scheduled, they can only make so many moves before there must be a new call. */
  lemma {:induction false} MovesAreBounded(states: seq<State>)
    requires Moves(states)
    ensures Work(states[|states| - 1].threads) + (|states| - 1) <= Work(states[0].threads)
  {
    hide Do, Enabled, CanMove, Work;
    if |states| > 1 {
      var n := |states| - 1;
      assert Move(states[n - 1], states[n]);
      var i: nat, a :|
        Enabled(states[n - 1], i, a) && a != Call && CanMove(states[n - 1], i) && states[n] == Do(states[n - 1], i, a);
      MovingIsProgress(states[n - 1], i, a);
      MovesAreBounded(states[..n]);
    }
  }

  /**
   Every round ends. Once all threads have made the same number of calls, `MovesAreBounded` says that at most
   `4 * ncores` moves later nobody can move; this says that then all of them have returned and no work is left.
   */
  lemma RoundEnds(s: State, calls: nat)
    requires Reachable(s)
    requires forall j :: 0 <= j < |s.threads| ==> s.threads[j].calls == calls
    requires forall j: nat :: !CanMove(s, j)
    ensures forall j :: 0 <= j < |s.threads| ==> s.threads[j].pc == Outside && s.threads[j].done == calls
    ensures Work(s.threads) == 0
  {
    hide Work;
    var r := ReachableInv(s);
    forall j | 0 <= j < |s.threads| ensures s.threads[j].pc == Outside && s.threads[j].done == calls {
      if s.threads[j].pc != Outside { NoDeadlock(s, j); }
      assert ThreadInv(s.threads[j], r);
    }
    NoWorkLeft(s.threads);
  }

  lemma {:induction false} WorkIsBounded(threads: seq<Thread>)
    ensures Work(threads) <= 4 * |threads|
  {
    if threads != [] { WorkIsBounded(threads[1..]); }
  }
}
