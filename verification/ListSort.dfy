/**
 `core_list_mergesort`: the in-place, non-recursive, bottom-up merge sort.

 Cells are named by their position in the list as it was given (`C[i]` is the i-th cell and `D[i]`
 the data it points to), so a list order is a sequence of positions and stability is a statement
 about those positions. The comparators write to the data they compare; a `View` is what the data
 held at one moment.
 */
module ListSort {
  import opened Finite
  import opened ListTypes
  import opened Numbers

  datatype View = View(cmp: Comparator, regen: bool, D: seq<ListData>, K: seq<Val>)

  ghost predicate Valid(v: View) { |v.D| == |v.K| }

  /** `v` is what the data holds now. */
  ghost predicate Current(v: View)
    reads v.D
  {
    Valid(v) && forall i :: 0 <= i < |v.D| ==> ValOf(v.D[i]) == v.K[i]
  }

  ghost predicate Seen(v: View, i: nat) { Valid(v) && i < |v.D| && SeenVal(v.cmp, v.regen, v.K[i]) }

  ghost predicate Le(v: View, i: nat, j: nat) {
    Valid(v) && i < |v.D| && j < |v.D| && LeVal(v.cmp, v.D[i], v.K[i], v.D[j], v.K[j])
  }

  /** Smaller, or equal and given first: the order a stable sort must produce. */
  ghost predicate Before(v: View, i: nat, j: nat) {
    Le(v, i, j) && (Le(v, j, i) ==> i < j)
  }

  ghost predicate PurePreorder(f: (ListData, ListData) -> int, D: seq<ListData>) {
    && (forall i, j :: 0 <= i < |D| && 0 <= j < |D| ==> f(D[i], D[j]) <= 0 || f(D[j], D[i]) <= 0)
    && (forall i, j, k :: 0 <= i < |D| && 0 <= j < |D| && 0 <= k < |D| ==>
          f(D[i], D[j]) <= 0 && f(D[j], D[k]) <= 0 ==> f(D[i], D[k]) <= 0)
  }

  /** Every comparison by the difference of numbers is one, and so is the one that finds everything equal. */
  lemma ByNumberIsPreorder(number: ListData -> int, D: seq<ListData>)
    ensures PurePreorder((a: ListData, b: ListData) => number(a) - number(b), D)
  {}

  /** A comparison without side effects must be a total preorder; the other two always are. */
  ghost predicate Lawful(v: View) {
    Valid(v) && (v.cmp.CmpPure? ==> PurePreorder(v.cmp.f, v.D))
  }

  lemma LeTotal(v: View, i: nat, j: nat)
    requires Lawful(v) && i < |v.D| && j < |v.D|
    ensures Le(v, i, j) || Le(v, j, i)
  {}

  lemma BeforeTransitive(v: View, i: nat, j: nat, k: nat)
    requires Lawful(v) && Before(v, i, j) && Before(v, j, k)
    ensures Before(v, i, k)
  {
    if v.cmp.CmpPure? {
      var f := v.cmp.f;
      assert f(v.D[i], v.D[k]) <= 0;
      if f(v.D[k], v.D[i]) <= 0 {
        assert f(v.D[j], v.D[i]) <= 0 && f(v.D[k], v.D[j]) <= 0;
      }
    }
  }

  /** Comparing has taken the data from `v` to `w`. */
  ghost predicate Extends(v: View, w: View) {
    && Valid(v) && Valid(w) && w.cmp == v.cmp && w.regen == v.regen && w.D == v.D
    && forall i :: 0 <= i < |v.D| ==> Evolves(v.cmp, v.regen, v.K[i], w.K[i])
  }

  lemma ExtendsTransitive(u: View, v: View, w: View)
    requires Extends(u, v) && Extends(v, w)
    ensures Extends(u, w) && w.cmp == u.cmp && w.regen == u.regen && w.D == u.D
    ensures Lawful(u) ==> Lawful(w)
  {
    forall i | 0 <= i < |u.D|
      ensures Evolves(u.cmp, u.regen, u.K[i], w.K[i])
    {
      assert Evolves(u.cmp, u.regen, u.K[i], v.K[i]) && Evolves(u.cmp, u.regen, v.K[i], w.K[i]);
    }
  }

  // ----- runs -----

  ghost predicate InRange(s: seq<nat>, n: nat) { forall k :: 0 <= k < |s| ==> s[k] < n }

  /** All of `s` lies in `[lo, hi)`. */
  ghost predicate Within(s: seq<nat>, lo: nat, hi: nat) { forall k :: 0 <= k < |s| ==> lo <= s[k] < hi }

  ghost predicate Sorted(v: View, s: seq<nat>) {
    forall a, b :: 0 <= a < b < |s| ==> Before(v, s[a], s[b])
  }

  ghost predicate AllSeen(v: View, s: seq<nat>) { forall a :: 0 <= a < |s| ==> Seen(v, s[a]) }

  /** A run is sorted, and unless it is a single cell all of it has been compared. */
  ghost predicate Run(v: View, s: seq<nat>) {
    |s| >= 1 && InRange(s, |v.D|) && Sorted(v, s) && (|s| == 1 || AllSeen(v, s))
  }

  lemma RunExtends(v: View, w: View, s: seq<nat>)
    requires Extends(v, w) && Run(v, s)
    ensures Run(w, s)
  {
    if |s| > 1 {
      forall a | 0 <= a < |s| ensures Seen(w, s[a]) && w.K[s[a]] == v.K[s[a]] {
        assert Seen(v, s[a]);
        assert Evolves(v.cmp, v.regen, v.K[s[a]], w.K[s[a]]);
      }
      forall a, b | 0 <= a < b < |s| ensures Before(w, s[a], s[b]) {
        assert Before(v, s[a], s[b]);
      }
    }
  }

  /** The cells of `s` are linked in that order; the link of the last one may be anything. */
  ghost predicate Chained(C: seq<ListHead>, s: seq<nat>)
    reads C
  {
    InRange(s, |C|) && forall k :: 0 <= k < |s| - 1 ==> C[s[k]].next == C[s[k + 1]]
  }

  /** `list` is the list of the cells of `s`, in that order. */
  ghost predicate IsList(C: seq<ListHead>, s: seq<nat>, list: ListHead?)
    reads C
  {
    s != [] && Chained(C, s) && list == C[s[0]] && C[s[|s| - 1]].next == null
  }

  ghost predicate Injective(C: seq<ListHead>) {
    forall i, j :: 0 <= i < j < |C| ==> C[i] != C[j]
  }

  ghost predicate DataOf(C: seq<ListHead>, D: seq<ListData>)
    reads C
  {
    |C| == |D| && forall i :: 0 <= i < |C| ==> C[i].info == D[i]
  }

  ghost function Cells(C: seq<ListHead>): (s: set<ListHead>)
    ensures forall i :: 0 <= i < |C| ==> C[i] in s
  {
    set c | c in C
  }

  ghost function Items(D: seq<ListData>): (s: set<ListData>)
    ensures forall i :: 0 <= i < |D| ==> D[i] in s
  {
    set d | d in D
  }

  ghost function Snapshot(D: seq<ListData>): (K: seq<Val>)
    reads D
    ensures |K| == |D| && forall i :: 0 <= i < |D| ==> K[i] == ValOf(D[i])
  {
    seq(|D|, i requires 0 <= i < |D| reads D => ValOf(D[i]))
  }

  /** One comparison of `D[i]` with `D[j]`, and what it does to the whole view. */
  method CompareData(ghost v: View, ghost i: nat, ghost j: nat, cmp: Comparator, a: ListData, b: ListData,
                     res: CoreResults?)
    returns (r: int, ghost w: View)
    requires Current(v) && i < |v.D| && j < |v.D| && v.D[i] == a && v.D[j] == b
    requires v.cmp == cmp && v.regen == (res == null) && (cmp.CmpComplex? ==> res != null)
    modifies a`data16, b`data16, res
    ensures res != null ==> res.seed3 == old(res.seed3)
    ensures Current(w) && Extends(v, w)
    ensures Seen(w, i) && Seen(w, j)
    ensures r <= 0 <==> Le(w, i, j)
  {
    r := Compare(cmp, a, b, res);
    w := v.(K := Snapshot(v.D));
    forall k | 0 <= k < |v.D|
      ensures Evolves(v.cmp, v.regen, v.K[k], w.K[k])
    {
      assert ValOf(v.D[k]) == w.K[k];
      assert old(ValOf(v.D[k])) == v.K[k];
    }
  }

  // ----- merging two runs -----

  /** `M` is the merge of `P` and `Q`: all their cells and no others, in order. */
  ghost predicate IsMerge(v: View, M: seq<nat>, P: seq<nat>, Q: seq<nat>) {
    && |M| == |P| + |Q|
    && (forall x :: x in M <==> x in P || x in Q)
    && Run(v, M)
  }

  /** The merge so far: `m` is in order and comes before everything still to be taken. */
  ghost predicate Merging(v: View, m: seq<nat>, P: seq<nat>, i: nat, Q: seq<nat>, j: nat)
  {
    && i <= |P| && j <= |Q| && |m| == i + j
    && (forall x :: x in m <==> x in P[..i] || x in Q[..j])
    && Sorted(v, m)
    && (forall a, b :: 0 <= a < |m| && i <= b < |P| ==> Before(v, m[a], P[b]))
    && (forall a, b :: 0 <= a < |m| && j <= b < |Q| ==> Before(v, m[a], Q[b]))
  }

  lemma TakeP(v: View, m: seq<nat>, P: seq<nat>, i: nat, Q: seq<nat>, j: nat)
    requires Lawful(v) && Merging(v, m, P, i, Q, j) && Sorted(v, P) && Sorted(v, Q)
    requires i < |P| && (j < |Q| ==> P[i] < Q[j]) && (j < |Q| ==> Le(v, P[i], Q[j]))
    ensures Merging(v, m + [P[i]], P, i + 1, Q, j)
  {
    var e := P[i];
    assert P[..i + 1] == P[..i] + [e];
    forall b | j <= b < |Q| ensures Before(v, e, Q[b]) {
      assert Before(v, e, Q[j]);
      if j < b { assert Before(v, Q[j], Q[b]); BeforeTransitive(v, e, Q[j], Q[b]); }
    }
  }

  lemma TakeQ(v: View, m: seq<nat>, P: seq<nat>, i: nat, Q: seq<nat>, j: nat)
    requires Lawful(v) && Merging(v, m, P, i, Q, j) && Sorted(v, P) && Sorted(v, Q)
    requires j < |Q| && InRange(P, |v.D|) && InRange(Q, |v.D|)
    requires i < |P| ==> !Le(v, P[i], Q[j])
    ensures Merging(v, m + [Q[j]], P, i, Q, j + 1)
  {
    var e := Q[j];
    assert Q[..j + 1] == Q[..j] + [e];
    forall b | i <= b < |P| ensures Before(v, e, P[b]) {
      LeTotal(v, P[i], e);
      assert Before(v, e, P[i]);
      if i < b { assert Before(v, P[i], P[b]); BeforeTransitive(v, e, P[i], P[b]); }
    }
  }

  ghost predicate NoDup(s: seq<nat>) { forall a, b :: 0 <= a < b < |s| ==> s[a] != s[b] }

  /** The list built so far: its cells `O`, its first and its last cell. */
  ghost predicate Built(C: seq<ListHead>, O: seq<nat>, list: ListHead?, tail: ListHead?)
    reads C
  {
    && Chained(C, O) && NoDup(O)
    && list == (if O == [] then null else C[O[0]])
    && tail == (if O == [] then null else C[O[|O| - 1]])
  }

  /** What is left of the input: the cells of `P` from `i`, and those of `T` from `j` to the end. */
  ghost predicate Left(C: seq<ListHead>, P: seq<nat>, i: nat, p: ListHead?, T: seq<nat>, j: nat, q: ListHead?)
    reads C
  {
    && InRange(P, |C|) && InRange(T, |C|) && i <= |P| && j <= |T|
    && (i < |P| ==> p == C[P[i]])
    && (forall k :: i <= k < |P| - 1 ==> C[P[k]].next == C[P[k + 1]])
    && q == (if j < |T| then C[T[j]] else null)
    && (forall k :: j <= k < |T| - 1 ==> C[T[k]].next == C[T[k + 1]])
    && (j < |T| ==> C[T[|T| - 1]].next == null)
  }

  lemma LeftNext(C: seq<ListHead>, P: seq<nat>, i: nat, p: ListHead?, T: seq<nat>, j: nat, q: ListHead?)
    requires Left(C, P, i, p, T, j, q)
    ensures i < |P| ==> P[i] < |C| && p != null && p == C[P[i]] && Left(C, P, i + 1, p.next, T, j, q)
    ensures j < |T| ==> T[j] < |C| && q != null && q == C[T[j]] && Left(C, P, i, p, T, j + 1, q.next)
    ensures j == |T| ==> q == null
  {}

  lemma BuiltEmpty(C: seq<ListHead>, O: seq<nat>, list: ListHead?, tail: ListHead?, x: nat)
    requires Built(C, O, list, tail) && x < |C|
    ensures tail == null ==> O == [] && O + [x] == [x] && Built(C, [x], C[x], C[x])
    ensures tail != null ==> O != [] && list != null && O[|O| - 1] < |C| && tail == C[O[|O| - 1]]
  {}

  lemma InjectiveAt(C: seq<ListHead>, i: nat, j: nat)
    requires Injective(C) && i < |C| && j < |C| && i != j
    ensures C[i] != C[j]
  {}

  /** Add the next element to the merged list; the rest of the input stays as it was. */
  method AppendCell(list: ListHead?, tail: ListHead?, e: ListHead,
                    ghost C: seq<ListHead>, ghost v: View, ghost O: seq<nat>, ghost x: nat,
                    ghost P: seq<nat>, ghost i: nat, ghost p: ListHead?, ghost T: seq<nat>, ghost j: nat,
                    ghost q: ListHead?)
    returns (list': ListHead, tail': ListHead)
    requires Injective(C) && DataOf(C, v.D) && Current(v)
    requires Built(C, O, list, tail) && x < |C| && e == C[x] && x !in O
    requires Left(C, P, i, p, T, j, q) && Apart(O, P, i) && Apart(O, T, j)
    modifies Cells(C)`next
    ensures Built(C, O + [x], list', tail')
    ensures DataOf(C, v.D) && Current(v) && Left(C, P, i, p, T, j, q)
  {
    BuiltEmpty(C, O, list, tail, x);
    if tail != null {
      ghost var z := O[|O| - 1];
      tail.next := e;
      forall y | 0 <= y < |C| && y != z ensures C[y].next == old(C[y].next) { InjectiveAt(C, y, z); }
      list' := list;
      ghost var O' := O + [x];
      forall k | 0 <= k < |O'| - 1 ensures C[O'[k]].next == C[O'[k + 1]] {
        if k < |O| - 1 { assert O[k] != z; }
      }
    } else {
      list' := e;
    }
    tail' := e;
  }

  ghost predicate Apart(O: seq<nat>, P: seq<nat>, i: nat) {
    forall a, b :: 0 <= a < |O| && i <= b < |P| ==> O[a] != P[b]
  }

  /** The cells of `out` come before those of `P`, which come before those of `Q`; and `Q` is the beginning
      of `T`, whose other cells come last. */
  ghost predicate Placed(out: seq<nat>, P: seq<nat>, Q: seq<nat>, T: seq<nat>) {
    var c := |out| + |P|;
    && Within(out, 0, |out|) && Within(P, |out|, c) && Within(Q, c, c + |Q|)
    && Q <= T && forall b :: |Q| <= b < |T| ==> c + |Q| <= T[b]
  }

  lemma MergedIsFresh(v: View, out: seq<nat>, m: seq<nat>, P: seq<nat>, i: nat, Q: seq<nat>, j: nat, T: seq<nat>)
    requires MergeState(v, m, P, i, Q, j) && Placed(out, P, Q, T)
    ensures Apart(out + m, P, i) && Apart(out + m, T, j)
    ensures Q <= T && (i < |P| && j < |Q| ==> P[i] < Q[j])
  {
    var O := out + m;
    forall a, b | 0 <= a < |O| && i <= b < |P| ensures O[a] != P[b] {
      if a < |out| {
        assert O[a] == out[a];
      } else {
        assert O[a] == m[a - |out|];
        assert Before(v, m[a - |out|], P[b]);
      }
    }
    forall a, b | 0 <= a < |O| && j <= b < |T| ensures O[a] != T[b] {
      if a < |out| {
        assert O[a] == out[a];
      } else if b < |Q| {
        assert O[a] == m[a - |out|] && T[b] == Q[b];
        assert Before(v, m[a - |out|], Q[b]);
      } else {
        assert O[a] == m[a - |out|] && m[a - |out|] in m;
      }
    }
  }

  lemma ApartNext(O: seq<nat>, P: seq<nat>, i: nat)
    requires Apart(O, P, i) && i < |P|
    ensures P[i] !in O && Apart(O, P, i + 1)
  {}

  lemma MergingExtends(u: View, v: View, m: seq<nat>, P: seq<nat>, i: nat, Q: seq<nat>, j: nat)
    requires Extends(u, v) && Merging(u, m, P, i, Q, j) && InRange(P, |u.D|) && InRange(Q, |u.D|)
    requires m == [] || (AllSeen(u, P) && AllSeen(u, Q))
    ensures Merging(v, m, P, i, Q, j)
  {
    if m != [] {
      forall x | x in P || x in Q ensures x < |u.D| && v.K[x] == u.K[x] {
        assert Seen(u, x);
        assert Evolves(u.cmp, u.regen, u.K[x], v.K[x]);
      }
      forall a | 0 <= a < |m| ensures m[a] < |u.D| && v.K[m[a]] == u.K[m[a]] {
        assert m[a] in m;
      }
      forall a, b | 0 <= a < b < |m| ensures Before(v, m[a], m[b]) {
        assert Before(u, m[a], m[b]);
      }
      forall a, b | 0 <= a < |m| && i <= b < |P| ensures Before(v, m[a], P[b]) {
        assert Before(u, m[a], P[b]);
      }
      forall a, b | 0 <= a < |m| && j <= b < |Q| ensures Before(v, m[a], Q[b]) {
        assert Before(u, m[a], Q[b]);
      }
    }
  }

  /** Everything a merge in progress knows that does not depend on the links. */
  ghost predicate MergeState(v: View, M: seq<nat>, P: seq<nat>, i: nat, Q: seq<nat>, j: nat) {
    && Lawful(v) && Run(v, P) && (Q == [] || Run(v, Q))
    && Merging(v, M, P, i, Q, j)
    && (Q == [] ==> M == P[..i])
    && (Q != [] && M != [] ==> AllSeen(v, P) && AllSeen(v, Q))
  }

  lemma StateAfterCompare(u: View, v: View, M: seq<nat>, P: seq<nat>, i: nat, Q: seq<nat>, j: nat)
    requires MergeState(u, M, P, i, Q, j) && Extends(u, v) && i < |P| && j < |Q|
    requires Seen(v, P[i]) && Seen(v, Q[j])
    ensures MergeState(v, M, P, i, Q, j) && AllSeen(v, P) && AllSeen(v, Q)
  {
    RunExtends(u, v, P);
    RunExtends(u, v, Q);
    MergingExtends(u, v, M, P, i, Q, j);
  }

  /** Decide whether the next element of the merge comes from `p` or from `q`. */
  method FromP(cmp: Comparator, res: CoreResults?, p: ListHead?, psize: nat, q: ListHead?, qsize: nat,
               ghost C: seq<ListHead>, ghost v: View, ghost M: seq<nat>,
               ghost P: seq<nat>, ghost i: nat, ghost Q: seq<nat>, ghost j: nat)
    returns (take: bool, ghost w: View)
    requires DataOf(C, v.D) && Current(v) && MergeState(v, M, P, i, Q, j)
    requires v.cmp == cmp && v.regen == (res == null) && (cmp.CmpComplex? ==> res != null)
    requires i < |P| ==> p == C[P[i]]
    requires j < |Q| ==> q == C[Q[j]]
    requires psize == |P| - i && (qsize == 0 || q == null <==> j == |Q|) && (psize > 0 || j < |Q|)
    modifies Items(v.D)`data16, res
    ensures res != null ==> res.seed3 == old(res.seed3)
    ensures unchanged(C)
    ensures Current(w) && Extends(v, w) && MergeState(w, M, P, i, Q, j)
    ensures i < |P| && j < |Q| ==> AllSeen(w, P) && AllSeen(w, Q)
    ensures take ==> i < |P| && (j < |Q| ==> Le(w, P[i], Q[j]))
    ensures !take ==> j < |Q| && (i < |P| ==> !Le(w, P[i], Q[j]))
  {
    w := v;
    if psize == 0 {
      take := false;
    } else if qsize == 0 || q == null {
      take := true;
    } else {
      var r: int;
      r, w := CompareData(v, P[i], Q[j], cmp, p.info, q.info, res);
      StateAfterCompare(v, w, M, P, i, Q, j);
      take := r <= 0;
    }
  }

  lemma StateAfterTake(v: View, M: seq<nat>, P: seq<nat>, i: nat, Q: seq<nat>, j: nat, take: bool)
    requires MergeState(v, M, P, i, Q, j)
    requires take ==> i < |P| && (j < |Q| ==> P[i] < Q[j] && Le(v, P[i], Q[j]))
    requires !take ==> j < |Q| && (i < |P| ==> !Le(v, P[i], Q[j]))
    requires i < |P| && j < |Q| ==> AllSeen(v, P) && AllSeen(v, Q)
    ensures take ==> MergeState(v, M + [P[i]], P, i + 1, Q, j)
    ensures !take ==> MergeState(v, M + [Q[j]], P, i, Q, j + 1)
  {
    if take { TakeP(v, M, P, i, Q, j); } else { TakeQ(v, M, P, i, Q, j); }
  }

  lemma MergeBounds(v: View, M: seq<nat>, P: seq<nat>, i: nat, Q: seq<nat>, j: nat)
    requires MergeState(v, M, P, i, Q, j)
    ensures i <= |P| && j <= |Q| && Extends(v, v)
  {}

  /** Take the next element off the run it comes from. */
  method TakeNext(cmp: Comparator, res: CoreResults?, p: ListHead?, psize: nat, q: ListHead?, qsize: nat,
                  ghost C: seq<ListHead>, ghost v: View, ghost O: seq<nat>, ghost M: seq<nat>,
                  ghost P: seq<nat>, ghost i: nat, ghost Q: seq<nat>, ghost j: nat, ghost T: seq<nat>)
    returns (e: ListHead, p': ListHead?, psize': nat, q': ListHead?, qsize': nat,
             ghost w: View, ghost x: nat, ghost i': nat, ghost j': nat)
    requires DataOf(C, v.D) && Current(v) && MergeState(v, M, P, i, Q, j)
    requires v.cmp == cmp && v.regen == (res == null) && (cmp.CmpComplex? ==> res != null)
    requires i < |P| && j < |Q| ==> P[i] < Q[j]
    requires Left(C, P, i, p, T, j, q) && Q <= T && Apart(O, P, i) && Apart(O, T, j)
    requires psize == |P| - i && (qsize == 0 || q == null <==> j == |Q|) && (psize > 0 || j < |Q|)
    modifies Items(v.D)`data16, res
    ensures unchanged(C) && (res != null ==> res.seed3 == old(res.seed3))
    ensures i' + j' == i + j + 1 && i <= i' <= |P| && j <= j' <= |Q|
    ensures psize' == |P| - i' && qsize' - qsize == j - j'
    ensures Current(w) && Extends(v, w) && w.D == v.D && MergeState(w, M + [x], P, i', Q, j')
    ensures x < |C| && e == C[x] && x !in O
    ensures Left(C, P, i', p', T, j', q') && Apart(O, P, i') && Apart(O, T, j')
  {
    hide *;
    LeftNext(C, P, i, p, T, j, q);
    MergeBounds(v, M, P, i, Q, j);
    var take: bool;
    take, w := FromP(cmp, res, p, psize, q, qsize, C, v, M, P, i, Q, j);
    StateAfterTake(w, M, P, i, Q, j, take);
    LeftNext(C, P, i, p, T, j, q);
    ExtendsTransitive(v, v, w);
    if take {
      e, p', psize', q', qsize' := p, p.next, psize - 1, q, qsize;
      x, i', j' := P[i], i + 1, j;
      ApartNext(O, P, i);
    } else {
      e, q', qsize', p', psize' := q, q.next, qsize - 1, p, psize;
      x, i', j' := Q[j], i, j + 1;
      ApartNext(O, T, j);
    }
  }

  lemma Snoc(s: seq<nat>, t: seq<nat>, x: nat)
    ensures s + (t + [x]) == (s + t) + [x]
  {}

  lemma Snoc0(s: seq<nat>)
    ensures s + [] == s
  {}

  /** One turn of the merging loop: decide, take the element, and link it behind the merged list. */
  method MergeStep(cmp: Comparator, res: CoreResults?, p: ListHead?, psize: nat, q: ListHead?, qsize: nat,
                   list: ListHead?, tail: ListHead?,
                   ghost C: seq<ListHead>, ghost v: View, ghost out: seq<nat>, ghost M: seq<nat>,
                   ghost P: seq<nat>, ghost i: nat, ghost Q: seq<nat>, ghost j: nat, ghost T: seq<nat>)
    returns (p': ListHead?, psize': nat, q': ListHead?, qsize': nat, list': ListHead, tail': ListHead,
             ghost w: View, ghost M': seq<nat>, ghost i': nat, ghost j': nat)
    requires Injective(C) && DataOf(C, v.D) && Current(v) && MergeState(v, M, P, i, Q, j)
    requires v.cmp == cmp && v.regen == (res == null) && (cmp.CmpComplex? ==> res != null)
    requires Placed(out, P, Q, T)
    requires Built(C, out + M, list, tail) && Left(C, P, i, p, T, j, q)
    requires psize == |P| - i && (qsize == 0 || q == null <==> j == |Q|) && (psize > 0 || j < |Q|)
    modifies Cells(C)`next, Items(v.D)`data16, res
    ensures res != null ==> res.seed3 == old(res.seed3)
    ensures i' + j' == i + j + 1 && i <= i' <= |P| && j <= j' <= |Q|
    ensures psize' == |P| - i' && qsize' - qsize == j - j'
    ensures DataOf(C, v.D) && Current(w) && Extends(v, w) && MergeState(w, M', P, i', Q, j')
    ensures Built(C, out + M', list', tail') && Left(C, P, i', p', T, j', q')
  {
    hide *;
    MergedIsFresh(v, out, M, P, i, Q, j, T);
    ghost var x: nat;
    var e: ListHead;
    e, p', psize', q', qsize', w, x, i', j' := TakeNext(cmp, res, p, psize, q, qsize, C, v, out + M, M, P, i, Q, j, T);
    M' := M + [x];
    Snoc(out, M, x);
    list', tail' := AppendCell(list, tail, e, C, w, out + M, x, P, i', p', T, j', q');
  }

  lemma MergeDone(v: View, M: seq<nat>, P: seq<nat>, Q: seq<nat>)
    requires MergeState(v, M, P, |P|, Q, |Q|)
    ensures IsMerge(v, M, P, Q)
  {
    assert P[..|P|] == P && Q[..|Q|] == Q;
    forall a | 0 <= a < |M| ensures M[a] < |v.D| && (Q != [] ==> Seen(v, M[a])) {
      assert M[a] in M;
    }
  }

  /** The second run has been used up exactly when `qsize` is 0 or `q` has reached the end. */
  lemma SecondRunOver(C: seq<ListHead>, P: seq<nat>, i: nat, p: ListHead?, Q: seq<nat>, T: seq<nat>, j: nat,
                      q: ListHead?,
                      insize: nat)
    requires Left(C, P, i, p, T, j, q) && Q <= T && j <= |Q| <= insize && (|Q| == insize || Q == T)
    ensures insize - j == 0 || q == null <==> j == |Q|
    ensures Left(C, [], 0, null, T, j, q)
  {}

  lemma MergeStart(v: View, P: seq<nat>, Q: seq<nat>)
    requires Lawful(v) && Run(v, P) && (Q == [] || Run(v, Q))
    ensures MergeState(v, [], P, 0, Q, 0) && Extends(v, v)
  {}

  lemma PlacedPrefix(out: seq<nat>, P: seq<nat>, Q: seq<nat>, T: seq<nat>)
    requires Placed(out, P, Q, T)
    ensures Q <= T
  {}

  /** Merge the run `P` at `p` with the run `Q` at `q`, behind the list built so far. */
  method MergeRuns(cmp: Comparator, res: CoreResults?, insize: nat, p0: ListHead, psize0: nat, q0: ListHead?,
                   list0: ListHead?, tail0: ListHead?,
                   ghost C: seq<ListHead>, ghost v0: View,
                   ghost out: seq<nat>, ghost P: seq<nat>, ghost Q: seq<nat>, ghost T: seq<nat>)
    returns (list: ListHead?, tail: ListHead?, q: ListHead?, ghost M: seq<nat>, ghost v: View)
    requires Injective(C) && DataOf(C, v0.D) && Current(v0) && Lawful(v0)
    requires v0.cmp == cmp && v0.regen == (res == null) && (cmp.CmpComplex? ==> res != null)
    requires Run(v0, P) && psize0 == |P| && (Q == [] || Run(v0, Q))
    requires |Q| <= insize && (|Q| == insize || Q == T)
    requires Placed(out, P, Q, T)
    requires Built(C, out, list0, tail0) && Left(C, P, 0, p0, T, 0, q0)
    modifies Cells(C)`next, Items(v0.D)`data16, res
    ensures res != null ==> res.seed3 == old(res.seed3)
    ensures Current(v) && Extends(v0, v)
    ensures DataOf(C, v0.D) && IsMerge(v, M, P, Q)
    ensures Built(C, out + M, list, tail)
    ensures Left(C, [], 0, null, T, |Q|, q)
  {
    hide *;
    MergeStart(v0, P, Q);
    Snoc0(out);
    PlacedPrefix(out, P, Q, T);
    var p: ListHead? := p0;
    q := q0;
    list, tail := list0, tail0;
    var psize, qsize := psize0, insize;
    ghost var i, j := 0, 0;
    M, v := [], v0;
    while psize > 0 || (qsize > 0 && q != null)
      invariant i <= |P| && j <= |Q| && psize == |P| - i && qsize == insize - j
      invariant res != null ==> res.seed3 == old(res.seed3)
      invariant Current(v) && Extends(v0, v) && v.cmp == v0.cmp && v.regen == v0.regen && v.D == v0.D
      invariant DataOf(C, v.D) && MergeState(v, M, P, i, Q, j)
      invariant Built(C, out + M, list, tail)
      invariant Left(C, P, i, p, T, j, q)
      decreases psize + qsize
    {
      ghost var u := v;
      SecondRunOver(C, P, i, p, Q, T, j, q, insize);
      p, psize, q, qsize, list, tail, v, M, i, j :=
        MergeStep(cmp, res, p, psize, q, qsize, list, tail, C, u, out, M, P, i, Q, j, T);
      ExtendsTransitive(v0, u, v);
    }
    SecondRunOver(C, P, i, p, Q, T, j, q, insize);
    MergeDone(v, M, P, Q);
  }

  // ----- one pass -----

  function Min(a: nat, b: nat): nat { if a <= b then a else b }

  /** `s` is cut into runs of `w` cells, the last one perhaps shorter, and the run that starts at place `k`
      of the list holds exactly the cells given at places `k`, `k+1`, ... */
  ghost predicate Runs(v: View, s: seq<nat>, lo: nat, w: nat)
    requires w > 0
    decreases |s|
  {
    s == [] ||
    (var m := Min(w, |s|);
     Run(v, s[..m]) && Within(s[..m], lo, lo + m) && Runs(v, s[m..], lo + m, w))
  }

  /** As `Runs`, with no shorter last run. */
  ghost predicate FullRuns(v: View, s: seq<nat>, lo: nat, w: nat)
    requires w > 0
    decreases |s|
  {
    s == [] ||
    (w <= |s| && Run(v, s[..w]) && Within(s[..w], lo, lo + w) && FullRuns(v, s[w..], lo + w, w))
  }

  /** The number of runs of `w` that `n` cells make. */
  function RunCount(n: nat, w: nat): nat
    requires w > 0
  {
    if n == 0 then 0 else 1 + RunCount(n - Min(w, n), w)
  }

  /** A pass makes `n / w` merges, rounded up. */
  lemma {:induction false} RunCountIs(n: nat, w: nat)
    requires w > 0
    ensures RunCount(n, w) == (n + w - 1) / w
  {
    if n > w {
      RunCountIs(n - w, w);
      OneMoreRun(n - 1, w);
    } else if n > 0 {
      OneMoreRun(n - 1, w);
      assert (n - 1) / w == 0;
    } else {
      assert (w - 1) / w == 0;
    }
  }

  lemma OneMoreRun(n: nat, w: nat)
    requires w > 0
    ensures (n + w) / w == n / w + 1
  {
    var q := n / w;
    assert n == q * w + n % w;
    assert (q + 1) * w == q * w + w;
    DivModUnique(n + w, w, q + 1, n % w);
  }

  lemma {:induction false} RunsExtend(u: View, v: View, s: seq<nat>, lo: nat, w: nat)
    requires w > 0 && Extends(u, v)
    ensures Runs(u, s, lo, w) ==> Runs(v, s, lo, w)
    ensures FullRuns(u, s, lo, w) ==> FullRuns(v, s, lo, w)
    decreases |s|
  {
    if s != [] {
      var m := Min(w, |s|);
      RunsExtend(u, v, s[m..], lo + m, w);
      if Run(u, s[..m]) { RunExtends(u, v, s[..m]); }
    }
  }

  lemma Cut(s: seq<nat>, t: seq<nat>, w: nat)
    requires w <= |s|
    ensures (s + t)[..w] == s[..w] && (s + t)[w..] == s[w..] + t
  {}

  lemma {:induction false} RunsAppend(v: View, s: seq<nat>, t: seq<nat>, lo: nat, w: nat)
    requires w > 0 && FullRuns(v, s, lo, w) && 1 <= |t| <= w && Run(v, t) && Within(t, lo + |s|, lo + |s| + |t|)
    ensures Runs(v, s + t, lo, w)
    ensures |t| == w ==> FullRuns(v, s + t, lo, w)
    decreases |s|
  {
    if s == [] {
      assert s + t == t && t[..|t|] == t;
    } else {
      RunsAppend(v, s[w..], t, lo + w, w);
      Cut(s, t, w);
    }
  }

  lemma RunsSplit(C: seq<ListHead>, R: seq<nat>, m: nat, p: ListHead?)
    requires Left(C, [], 0, null, R, 0, p) && 1 <= m <= |R|
    ensures Left(C, R[..m], 0, p, R[m..], 0, if m < |R| then C[R[m]] else null)
  {}

  lemma LeftShift(C: seq<ListHead>, T: seq<nat>, j: nat, q: ListHead?)
    requires Left(C, [], 0, null, T, j, q)
    ensures Left(C, [], 0, null, T[j..], 0, q)
  {}

  /** Step `insize` places along from `p`. */
  method StepAlong(p: ListHead, insize: nat, ghost C: seq<ListHead>, ghost R: seq<nat>)
    returns (psize: nat, q: ListHead?)
    requires insize > 0 && R != [] && Left(C, [], 0, null, R, 0, p)
    ensures psize == Min(insize, |R|)
    ensures q == if psize < |R| then C[R[psize]] else null
  {
    q := p;
    psize := 0;
    var i := 0;
    while i < insize
      invariant 0 <= i == psize <= Min(insize, |R|)
      invariant psize < |R| && q == C[R[psize]]
    {
      assert psize + 1 < |R| ==> q.next == C[R[psize + 1]];
      psize := psize + 1;
      q := q.next;
      if q == null { break; }
      i := i + 1;
    }
  }

  lemma MergedWithin(v: View, M: seq<nat>, P: seq<nat>, Q: seq<nat>, lo: nat)
    requires IsMerge(v, M, P, Q) && Within(P, lo, lo + |P|) && Within(Q, lo + |P|, lo + |P| + |Q|)
    ensures Within(M, lo, lo + |M|)
  {
    forall k | 0 <= k < |M| ensures lo <= M[k] < lo + |M| { assert M[k] in M; }
  }

  /** Where a pass stands: `out` has been merged, `R` has not. */
  ghost predicate Halfway(v: View, out: seq<nat>, R: seq<nat>, w: nat, n: nat)
    requires w > 0
  {
    && |out| + |R| == n
    && Within(out, 0, |out|) && Within(R, |out|, n)
    && Runs(v, R, |out|, w)
    && (if R == [] then Runs(v, out, 0, 2 * w) else FullRuns(v, out, 0, 2 * w))
  }

  /** The two runs of the next merge, and the rest. */
  ghost function RunP(R: seq<nat>, w: nat): seq<nat> { R[..Min(w, |R|)] }

  ghost function AfterP(R: seq<nat>, w: nat): seq<nat> { R[Min(w, |R|)..] }

  ghost function RunQ(R: seq<nat>, w: nat): seq<nat> { RunP(AfterP(R, w), w) }

  ghost function AfterQ(R: seq<nat>, w: nat): seq<nat> { AfterP(AfterP(R, w), w) }

  lemma RunsUnfold(v: View, R: seq<nat>, lo: nat, w: nat)
    requires w > 0 && R != [] && Runs(v, R, lo, w)
    ensures var P, T := RunP(R, w), AfterP(R, w);
            && Run(v, P) && Within(P, lo, lo + |P|) && |P| == Min(w, |R|)
            && Runs(v, T, lo + |P|, w) && |T| == |R| - |P|
  {}

  lemma {:induction false} RunsWithin(v: View, R: seq<nat>, lo: nat, w: nat)
    requires w > 0 && Runs(v, R, lo, w)
    ensures Within(R, lo, lo + |R|)
    decreases |R|
  {
    if R != [] {
      RunsUnfold(v, R, lo, w);
      var P, T := RunP(R, w), AfterP(R, w);
      RunsWithin(v, T, lo + |P|, w);
      forall k | 0 <= k < |R| ensures lo <= R[k] < lo + |R| {
        if k < |P| { assert R[k] == P[k]; } else { assert R[k] == T[k - |P|]; }
      }
    }
  }

  lemma NextRuns(v: View, out: seq<nat>, R: seq<nat>, w: nat, n: nat)
    requires w > 0 && R != [] && Halfway(v, out, R, w, n)
    ensures var P, Q, T := RunP(R, w), RunQ(R, w), AfterP(R, w);
            && Run(v, P) && |P| == Min(w, |R|) && (Q == [] || Run(v, Q))
            && |Q| <= w && (|Q| == w || Q == T) && Placed(out, P, Q, T)
  {
    var P, Q, T, R' := RunP(R, w), RunQ(R, w), AfterP(R, w), AfterQ(R, w);
    RunsUnfold(v, R, |out|, w);
    if T != [] {
      RunsUnfold(v, T, |out| + |P|, w);
      RunsWithin(v, R', |out| + |P| + |Q|, w);
      forall b | |Q| <= b < |T| ensures |out| + |P| + |Q| <= T[b] { assert T[b] == R'[b - |Q|]; }
    }
  }

  lemma HalfwayJoin(v: View, out: seq<nat>, M: seq<nat>, R: seq<nat>, w: nat, n: nat)
    requires w > 0 && FullRuns(v, out, 0, 2 * w) && Runs(v, R, |out| + |M|, w)
    requires Run(v, M) && Within(M, |out|, |out| + |M|) && 1 <= |M| <= 2 * w && (R != [] ==> |M| == 2 * w)
    requires |out| + |M| + |R| == n
    ensures Halfway(v, out + M, R, w, n)
  {
    hide Run, FullRuns, Runs, Within;
    RunsWithin(v, R, |out| + |M|, w);
    RunsAppend(v, out, M, 0, 2 * w);
    RunsWithin(v, out + M, 0, 2 * w);
  }

  lemma HalfwayStep(u: View, v: View, out: seq<nat>, R: seq<nat>, M: seq<nat>, w: nat, n: nat)
    requires w > 0 && R != [] && Halfway(u, out, R, w, n) && Extends(u, v)
    requires IsMerge(v, M, RunP(R, w), RunQ(R, w))
    ensures Halfway(v, out + M, AfterQ(R, w), w, n)
    ensures |AfterQ(R, w)| == |R| - Min(2 * w, |R|) < |R| && |M| == |R| - |AfterQ(R, w)|
  {
    hide Run, FullRuns, Extends, Sorted, Placed, Runs, Within;
    var P, Q, T, R' := RunP(R, w), RunQ(R, w), AfterP(R, w), AfterQ(R, w);
    RunsUnfold(u, R, |out|, w);
    if T != [] { RunsUnfold(u, T, |out| + |P|, w); } else { NextRuns(u, out, R, w, n); EmptyWithin(|out| + |P|); }
    MergedWithin(v, M, P, Q, |out|);
    RunsExtend(u, v, R', |out| + |M|, w);
    RunsExtend(u, v, out, 0, 2 * w);
    HalfwayJoin(v, out, M, R', w, n);
  }

  lemma EmptyWithin(lo: nat)
    ensures Within([], lo, lo)
  {}

  lemma ListIsLeft(C: seq<ListHead>, S: seq<nat>, list: ListHead?)
    requires IsList(C, S, list)
    ensures Left(C, [], 0, null, S, 0, list) && Built(C, [], null, null)
  {}

  /** The merged list is closed behind its last cell. */
  method CloseList(tail: ListHead?, ghost list: ListHead?, ghost C: seq<ListHead>, ghost v: View, ghost out: seq<nat>)
    requires Injective(C) && DataOf(C, v.D) && Current(v) && out != [] && Built(C, out, list, tail)
    modifies Cells(C)`next
    ensures DataOf(C, v.D) && Current(v) && IsList(C, out, list) && NoDup(out)
  {
    tail.next := null;
  }

  lemma PassStart(v: View, S: seq<nat>, w: nat)
    requires w > 0 && Runs(v, S, 0, w) && Lawful(v)
    ensures Halfway(v, [], S, w, |S|) && Extends(v, v)
  {
    RunsWithin(v, S, 0, w);
  }

  lemma PassGoesOn(C: seq<ListHead>, R: seq<nat>, p: ListHead?, w: nat)
    requires w > 0 && p != null && Left(C, [], 0, null, R, 0, p)
    ensures R != [] && RunCount(|R|, 2 * w) == 1 + RunCount(|R| - Min(2 * w, |R|), 2 * w)
    ensures 1 <= |RunP(R, w)| <= |R| && AfterP(R, w) == R[|RunP(R, w)|..] && RunP(R, w) == R[..|RunP(R, w)|]
    ensures AfterQ(R, w) == AfterP(R, w)[|RunQ(R, w)|..]
  {}

  lemma PassDone(C: seq<ListHead>, v: View, out: seq<nat>, R: seq<nat>, p: ListHead?, w: nat, n: nat)
    requires w > 0 && p == null && Left(C, [], 0, null, R, 0, p) && Halfway(v, out, R, w, n)
    ensures R == [] && |out| == n && (n > 0 ==> out != []) && Within(out, 0, n)
    ensures Runs(v, out, 0, 2 * w) && RunCount(0, 2 * w) == 0
  {}

  type S32 = x: int | -0x8000_0000 <= x < 0x8000_0000

  /** One merge of a pass: find the two runs at `p` and merge them behind the list built so far. */
  method MergeNextRuns(cmp: Comparator, res: CoreResults?, insize: nat, p: ListHead, list: ListHead?, tail: ListHead?,
                       ghost C: seq<ListHead>, ghost v: View, ghost out: seq<nat>, ghost R: seq<nat>, ghost n: nat)
    returns (p': ListHead?, list': ListHead?, tail': ListHead?, ghost w: View, ghost out': seq<nat>, ghost R': seq<nat>)
    requires insize > 0 && Injective(C) && DataOf(C, v.D) && Current(v) && Lawful(v)
    requires v.cmp == cmp && v.regen == (res == null) && (cmp.CmpComplex? ==> res != null)
    requires Halfway(v, out, R, insize, n) && Built(C, out, list, tail) && Left(C, [], 0, null, R, 0, p)
    modifies Cells(C)`next, Items(v.D)`data16, res
    ensures res != null ==> res.seed3 == old(res.seed3)
    ensures DataOf(C, v.D) && Current(w) && Extends(v, w)
    ensures Halfway(w, out', R', insize, n) && Built(C, out', list', tail') && Left(C, [], 0, null, R', 0, p')
    ensures RunCount(|R|, 2 * insize) == 1 + RunCount(|R'|, 2 * insize)
    ensures |R'| < |R| && |out'| + |R'| == |out| + |R|
  {
    hide *;
    PassGoesOn(C, R, p, insize);
    NextRuns(v, out, R, insize, n);
    ghost var P, Q, T := RunP(R, insize), RunQ(R, insize), AfterP(R, insize);
    RunsSplit(C, R, |P|, p);
    var psize: nat, q: ListHead?;
    psize, q := StepAlong(p, insize, C, R);
    ghost var M: seq<nat>;
    list', tail', p', M, w := MergeRuns(cmp, res, insize, p, psize, q, list, tail, C, v, out, P, Q, T);
    LeftShift(C, T, |Q|, p');
    HalfwayStep(v, w, out, R, M, insize, n);
    out', R' := out + M, AfterQ(R, insize);
  }

  /** One pass over the list: merge the runs of `insize` in pairs. */
  method Pass(cmp: Comparator, res: CoreResults?, insize: S32, list0: ListHead?,
              ghost C: seq<ListHead>, ghost v0: View, ghost S: seq<nat>)
    returns (list: ListHead?, nmerges: S32, ghost out: seq<nat>, ghost v: View)
    requires insize > 0 && 0 < |S| == |C| < 0x8000_0000
    requires Injective(C) && DataOf(C, v0.D) && Current(v0) && Lawful(v0)
    requires v0.cmp == cmp && v0.regen == (res == null) && (cmp.CmpComplex? ==> res != null)
    requires IsList(C, S, list0) && Runs(v0, S, 0, insize)
    modifies Cells(C)`next, Items(v0.D)`data16, res
    ensures res != null ==> res.seed3 == old(res.seed3)
    ensures DataOf(C, v0.D) && Current(v) && Extends(v0, v)
    ensures IsList(C, out, list) && NoDup(out) && |out| == |S| && Within(out, 0, |S|)
    ensures Runs(v, out, 0, 2 * insize)
    ensures nmerges == RunCount(|S|, 2 * insize)
  {
    hide *;
    ListIsLeft(C, S, list0);
    PassStart(v0, S, insize);
    var p := list0;
    var tail: ListHead?;
    list, tail, nmerges := null, null, 0;
    v, out := v0, [];
    ghost var R := S;
    while p != null
      invariant res != null ==> res.seed3 == old(res.seed3)
      invariant Current(v) && Extends(v0, v) && v.cmp == v0.cmp && v.regen == v0.regen && v.D == v0.D && Lawful(v)
      invariant DataOf(C, v.D) && Halfway(v, out, R, insize, |S|)
      invariant Built(C, out, list, tail) && Left(C, [], 0, null, R, 0, p)
      invariant |out| + |R| == |S| && 0 <= nmerges <= |out|
      invariant nmerges + RunCount(|R|, 2 * insize) == RunCount(|S|, 2 * insize)
      decreases |R|
    {
      ghost var u := v;
      p, list, tail, v, out, R := MergeNextRuns(cmp, res, insize, p, list, tail, C, u, out, R, |S|);
      nmerges := nmerges + 1;
      ExtendsTransitive(v0, u, v);
    }
    PassDone(C, v, out, R, p, insize, |S|);
    CloseList(tail, list, C, v, out);
  }

  // ----- the whole sort -----

  ghost function Identity(n: nat): (s: seq<nat>)
    ensures |s| == n && forall k :: 0 <= k < n ==> s[k] == k
  {
    seq(n, k requires 0 <= k < n => k)
  }

  /** `order` names every cell once. */
  ghost predicate Permutation(order: seq<nat>, n: nat) {
    |order| == n && Within(order, 0, n) && NoDup(order)
  }

  ghost function Elements(s: seq<nat>): set<nat> { set x | x in s }

  lemma {:induction false} NoDupSize(s: seq<nat>)
    requires NoDup(s)
    ensures |Elements(s)| == |s|
  {
    if s != [] {
      var t := s[..|s| - 1];
      NoDupSize(t);
      assert s == t + [s[|s| - 1]];
      assert Elements(s) == Elements(t) + {s[|s| - 1]};
    }
  }

  /** A permutation leaves no cell out. */
  lemma PermutationIsOnto(order: seq<nat>, n: nat, x: nat)
    requires Permutation(order, n) && x < n
    ensures x in order
  {
    NoDupSize(order);
    forall y | y in Elements(order) ensures y in Interval(n) {
      var k :| 0 <= k < |order| && order[k] == y;
    }
    SubsetOfSameSize(Elements(order), Interval(n));
    assert x in Interval(n);
  }

  /** Single cells are runs. */
  lemma {:induction false} SingleRuns(v: View, s: seq<nat>, lo: nat)
    requires forall k :: 0 <= k < |s| ==> s[k] == lo + k
    requires Valid(v) && lo + |s| <= |v.D|
    ensures Runs(v, s, lo, 1)
    decreases |s|
  {
    if s != [] {
      SingleRuns(v, s[1..], lo + 1);
    }
  }

  /** When a pass makes one merge only, its result is one run; when it makes more, there is more than one run left. */
  lemma OneMerge(v: View, s: seq<nat>, w: nat)
    requires w > 0 && s != [] && Runs(v, s, 0, w)
    ensures RunCount(|s|, w) <= 1 ==> Run(v, s)
    ensures RunCount(|s|, w) > 1 ==> w < |s|
  {
    if |s| <= w {
      assert RunCount(0, w) == 0;
      assert s[..|s|] == s;
    } else {
      assert RunCount(|s| - w, w) >= 1;
    }
  }

  /**
   `core_list_mergesort`. Given the list of the cells `C`, it returns the list of the same cells in the
   order `order`: sorted, equal cells as they were given, and when there is anything to compare every
   cell has been compared.
   */
  method MergeSort(list0: ListHead, cmp: Comparator, res: CoreResults?, ghost C: seq<ListHead>, ghost v0: View)
    returns (list: ListHead, ghost order: seq<nat>, ghost v: View)
    requires |C| < 0x8000_0000 && Injective(C) && IsList(C, Identity(|C|), list0)
    requires DataOf(C, v0.D) && Current(v0) && Lawful(v0)
    requires v0.cmp == cmp && v0.regen == (res == null) && (cmp.CmpComplex? ==> res != null)
    modifies Cells(C)`next, Items(v0.D)`data16, res
    ensures res != null ==> res.seed3 == old(res.seed3)
    ensures DataOf(C, v0.D) && Current(v) && Extends(v0, v)
    ensures Permutation(order, |C|) && IsList(C, order, list)
    ensures Sorted(v, order) && (|C| >= 2 ==> AllSeen(v, order))
  {
    hide Extends, Lawful, IsList, Injective, Current;
    var insize: S32 := 1;
    var l: ListHead?, nmerges: S32 := list0, 0;
    order, v := Identity(|C|), v0;
    NotEmpty(C, order, list0);
    SortStart(v0, order);
    while true
      invariant res != null ==> res.seed3 == old(res.seed3)
      invariant Current(v) && Extends(v0, v) && v.cmp == v0.cmp && v.regen == v0.regen && v.D == v0.D && Lawful(v)
      invariant DataOf(C, v.D) && IsList(C, order, l) && 0 < |order| == |C|
      invariant 0 < insize && (insize == 1 || insize < |C|)
      invariant Runs(v, order, 0, insize)
      decreases |C| - insize
    {
      ghost var u := v;
      l, nmerges, order, v := Pass(cmp, res, insize, l, C, u, order);
      ExtendsTransitive(v0, u, v);
      OneMerge(v, order, 2 * insize);
      if nmerges <= 1 {
        NotEmpty(C, order, l);
        return l, order, v;
      }
      insize := insize * 2;
    }
  }

  lemma NotEmpty(C: seq<ListHead>, s: seq<nat>, list: ListHead?)
    requires IsList(C, s, list)
    ensures s != [] && list != null
  {}

  lemma SortStart(v: View, s: seq<nat>)
    requires Lawful(v) && |s| == |v.D| && forall k :: 0 <= k < |s| ==> s[k] == k
    ensures Runs(v, s, 0, 1) && Extends(v, v)
  {
    SingleRuns(v, s, 0);
  }
}
