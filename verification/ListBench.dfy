/**
 The CoreMark list benchmark: find, reverse, relink, remove and undo on the cells of one list, and
 `core_bench_list`, which uses all of them and must leave the list as it found it.

 As in `ListSort`, `C[i]` is the i-th cell of the list the benchmark is given, and the order the
 cells are in at some moment is a permutation of positions.
 */
module ListBench {
  import opened ListTypes
  import opened ListSort
  import opened Crc

  /** The search key `core_list_find` is given. */
  datatype Key = Key(data16: bv16, idx: S16)

  /** By index, unless the index of the key is negative: then by the low byte of the data. */
  predicate MatchesVal(x: Val, key: Key) { if key.idx >= 0 then x.idx == key.idx else LowBits(x.data16) == key.data16 }

  function LowBits(d: bv16): bv16 { d % 0x100 }

  lemma LowBitsIs(d: bv16)
    ensures LowBits(d) == d & 0x00ff
  {}

  ghost predicate Matches(d: ListData, key: Key)
    reads d
  {
    MatchesVal(ValOf(d), key)
  }

  lemma FirstCell(C: seq<ListHead>, S: seq<nat>, list: ListHead?)
    requires IsList(C, S, list)
    ensures InRange(S, |C|) && S != [] && list == C[S[0]]
  {}

  lemma CellBehind(C: seq<ListHead>, S: seq<nat>, list: ListHead?, k: nat)
    requires IsList(C, S, list) && k < |S|
    ensures InRange(S, |C|) && C[S[k]].next == if k + 1 < |S| then C[S[k + 1]] else null
  {}

  lemma MatchesIs(d: ListData, key: Key)
    ensures Matches(d, key) <==> if key.idx >= 0 then d.idx == key.idx else d.data16 & 0x00ff == key.data16
  {
    hide LowBits;
    LowBitsIs(d.data16);
  }

  /** `core_list_find`: the first cell that matches, if there is one. */
  method Find(list0: ListHead?, key: Key, ghost C: seq<ListHead>, ghost S: seq<nat>)
    returns (r: ListHead?, ghost k: nat)
    requires IsList(C, S, list0)
    ensures r == null <==> forall i :: 0 <= i < |S| ==> !Matches(C[S[i]].info, key)
    ensures r == null ==> k == |S|
    ensures r != null ==> k < |S| && r == C[S[k]] && Matches(r.info, key)
    ensures r != null ==> forall i :: 0 <= i < k ==> !Matches(C[S[i]].info, key)
  {
    hide LowBits, Injective, Cells, Matches, IsList, Chained;
    FirstCell(C, S, list0);
    var list := list0;
    k := 0;
    if key.idx >= 0 {
      while list != null && list.info.idx != key.idx
        invariant k <= |S| && list == if k < |S| then C[S[k]] else null
        invariant forall i :: 0 <= i < k ==> !Matches(C[S[i]].info, key)
        decreases |S| - k
      {
        MatchesIs(list.info, key);
        CellBehind(C, S, list0, k);
        list := list.next;
        k := k + 1;
      }
    } else {
      while list != null && list.info.data16 & 0x00ff != key.data16
        invariant k <= |S| && list == if k < |S| then C[S[k]] else null
        invariant forall i :: 0 <= i < k ==> !Matches(C[S[i]].info, key)
        decreases |S| - k
      {
        MatchesIs(list.info, key);
        CellBehind(C, S, list0, k);
        list := list.next;
        k := k + 1;
      }
    }
    if list != null { MatchesIs(list.info, key); }
    r := list;
  }

  ghost function Reversed(S: seq<nat>): (r: seq<nat>)
    ensures |r| == |S| && forall k :: 0 <= k < |S| ==> r[k] == S[|S| - 1 - k]
  {
    seq(|S|, k requires 0 <= k < |S| => S[|S| - 1 - k])
  }

  /** `core_list_reverse`. */
  method Reverse(list0: ListHead?, ghost C: seq<ListHead>, ghost S: seq<nat>) returns (r: ListHead?)
    requires Injective(C) && IsList(C, S, list0) && NoDup(S)
    modifies Cells(C)`next
    ensures IsList(C, Reversed(S), r)
  {
    var list := list0;
    var next: ListHead? := null;
    ghost var k := 0;
    while list != null
      invariant k <= |S| && list == if k < |S| then C[S[k]] else null
      invariant next == if k == 0 then null else C[S[k - 1]]
      invariant forall i :: 0 <= i < k - 1 ==> C[S[i + 1]].next == C[S[i]]
      invariant k > 0 ==> C[S[0]].next == null
      invariant forall i :: k <= i < |S| - 1 ==> C[S[i]].next == C[S[i + 1]]
      invariant k < |S| ==> C[S[|S| - 1]].next == null
      decreases |S| - k
    {
      assert k + 1 < |S| ==> list.next == C[S[k + 1]];
      forall i | 0 <= i < |S| && i != k ensures C[S[i]] != list { InjectiveAt(C, S[i], S[k]); }
      var tmp := list.next;
      list.next := next;
      next := list;
      list := tmp;
      k := k + 1;
    }
    r := next;
    ReversedIsList(C, S, r);
  }

  lemma ReversedIsList(C: seq<ListHead>, S: seq<nat>, list: ListHead?)
    requires S != [] && InRange(S, |C|) && list == C[S[|S| - 1]] && C[S[0]].next == null
    requires forall i :: 0 <= i < |S| - 1 ==> C[S[i + 1]].next == C[S[i]]
    ensures IsList(C, Reversed(S), list)
  {
    var R := Reversed(S);
    forall i | 0 <= i < |R| - 1 ensures C[R[i]].next == C[R[i + 1]] {
      var j := |S| - 2 - i;
      assert C[S[j + 1]].next == C[S[j]];
    }
  }

  /** The place in the old order of the cell at place `i` of the order after the cell behind place `k` has been
      moved behind the first. */
  ghost function Source(k: nat, i: nat): nat {
    if i == 0 then 0 else if i == 1 then k + 1 else if i <= k + 1 then i - 1 else i
  }

  /** The order after the cell behind place `k` has been moved behind the first. */
  ghost function Moved(S: seq<nat>, k: nat): (M: seq<nat>)
    requires k + 1 < |S|
    ensures |M| == |S| && forall i :: 0 <= i < |S| ==> M[i] == S[Source(k, i)]
  {
    seq(|S|, i requires 0 <= i < |S| => S[Source(k, i)])
  }

  /** Cache the item behind the one that was found at the head of the list. */
  method MoveNext(list: ListHead, found: ListHead, ghost C: seq<ListHead>, ghost S: seq<nat>, ghost k: nat)
    requires Injective(C) && IsList(C, S, list) && NoDup(S) && k + 1 < |S| && found == C[S[k]]
    modifies Cells(C)`next
    ensures IsList(C, Moved(S, k), list)
  {
    ghost var M := Moved(S, k);
    forall i, j | 0 <= i < |S| && 0 <= j < |S| && i != j ensures C[S[i]] != C[S[j]] { InjectiveAt(C, S[i], S[j]); }
    ghost var n := |S|;
    assert found.next == C[S[k + 1]] && list.next == C[S[1]];
    var finder := found.next;
    assert k + 2 < n ==> finder.next == C[S[k + 2]];
    found.next := finder.next;
    finder.next := list.next;
    list.next := finder;
    forall i | 0 <= i < n && i != 0 && i != k && i != k + 1 ensures C[S[i]].next == old(C[S[i]].next) {}
    forall i | 0 <= i < n - 1 ensures C[S[Source(k, i)]].next == C[S[Source(k, i + 1)]] {
      if i == 1 {
      } else if 1 < i < k + 1 {
        assert old(C[S[i - 1]].next) == C[S[i]];
      } else if i > k + 1 {
        assert old(C[S[i]].next) == C[S[i + 1]];
      }
    }
    LinksGiveList(C, S, k, M, list);
  }

  lemma LinksGiveList(C: seq<ListHead>, S: seq<nat>, k: nat, M: seq<nat>, list: ListHead)
    requires k + 1 < |S| && M == Moved(S, k) && InRange(S, |C|) && list == C[S[0]]
    requires forall i :: 0 <= i < |S| - 1 ==> C[S[Source(k, i)]].next == C[S[Source(k, i + 1)]]
    requires C[S[Source(k, |S| - 1)]].next == null
    ensures IsList(C, M, list)
  {
    forall i | 0 <= i < |M| - 1 ensures C[M[i]].next == C[M[i + 1]] {
      assert C[S[Source(k, i)]].next == C[S[Source(k, i + 1)]];
    }
  }

  lemma MovedIsPermutation(S: seq<nat>, k: nat, n: nat)
    requires Permutation(S, n) && k + 1 < n
    ensures Permutation(Moved(S, k), n)
  {
    var M := Moved(S, k);
    forall a, b | 0 <= a < b < n ensures M[a] != M[b] {
      assert Source(k, a) != Source(k, b);
    }
  }

  lemma ReversedIsPermutation(S: seq<nat>, n: nat)
    requires Permutation(S, n)
    ensures Permutation(Reversed(S), n)
  {}

  /** The order without the cell at place `k`. */
  ghost function Without(S: seq<nat>, k: nat): (W: seq<nat>)
    requires k < |S|
    ensures |W| == |S| - 1 && forall i :: 0 <= i < |W| ==> W[i] == if i < k then S[i] else S[i + 1]
  {
    S[..k] + S[k + 1..]
  }

  /**
   `core_list_remove`: the item at place `k` leaves the list by swapping its data into the next cell and
   unlinking that cell.
   */
  method Remove(item: ListHead, ghost C: seq<ListHead>, ghost S: seq<nat>, ghost k: nat, ghost list: ListHead)
    returns (ret: ListHead)
    requires Injective(C) && IsList(C, S, list) && NoDup(S) && k + 1 < |S| && item == C[S[k]]
    modifies item, C[S[k + 1]]
    ensures ret == C[S[k + 1]] && ret.next == null && IsList(C, Without(S, k + 1), list)
    ensures item.info == old(ret.info) && ret.info == old(item.info)
    ensures item.next == old(C[S[k + 1]].next)
  {
    forall i, j | 0 <= i < |S| && 0 <= j < |S| && i != j ensures C[S[i]] != C[S[j]] { InjectiveAt(C, S[i], S[j]); }
    assert item.next == C[S[k + 1]];
    assert k + 2 < |S| ==> item.next.next == C[S[k + 2]];
    ret := item.next;
    var tmp := item.info;
    item.info := ret.info;
    ret.info := tmp;
    item.next := item.next.next;
    ret.next := null;
    ghost var W := Without(S, k + 1);
    forall i | 0 <= i < |W| - 1 ensures C[W[i]].next == C[W[i + 1]] {
      if i < k {
        assert old(C[S[i]].next) == C[S[i + 1]];
      } else if i > k {
        assert old(C[S[i + 1]].next) == C[S[i + 2]];
      }
    }
  }

  /** `core_list_undo_remove`: swap the data back and link the removed cell back in. */
  method UndoRemove(removed: ListHead, modified: ListHead) returns (r: ListHead)
    modifies removed, modified
    requires removed != modified
    ensures r == removed
    ensures removed.info == old(modified.info) && modified.info == old(removed.info)
    ensures removed.next == old(modified.next) && modified.next == removed
  {
    var tmp := removed.info;
    removed.info := modified.info;
    modified.info := tmp;
    removed.next := modified.next;
    modified.next := removed;
    return removed;
  }

  /** Undo undoes remove: whatever is done in between without touching the two cells, every link and
      every binding of data to cells is back. */
  method RemoveAndUndo(item: ListHead, ghost C: seq<ListHead>, ghost S: seq<nat>, ghost k: nat, ghost list: ListHead)
    requires Injective(C) && IsList(C, S, list) && NoDup(S) && k + 1 < |S| && item == C[S[k]]
    modifies item, C[S[k + 1]]
    ensures forall c: ListHead :: old(allocated(c)) ==> c.next == old(c.next) && c.info == old(c.info)
  {
    InjectiveAt(C, S[k], S[k + 1]);
    assert item.next == C[S[k + 1]];
    var remover := Remove(item, C, S, k, list);
    remover := UndoRemove(remover, item);
  }

  // ----- sorting a list that is in some order -----

  /** `list` holds the cells of `C`, with their own data, in the order `S`. */
  ghost predicate Holds(C: seq<ListHead>, D: seq<ListData>, S: seq<nat>, list: ListHead?)
    reads C
  {
    Injective(C) && DataOf(C, D) && Permutation(S, |C|) && IsList(C, S, list)
  }

  /** The elements of `s` in the order `S`. */
  ghost function Along<T>(s: seq<T>, S: seq<nat>): (r: seq<T>)
    requires InRange(S, |s|)
    ensures |r| == |S| && forall k :: 0 <= k < |S| ==> r[k] == s[S[k]]
  {
    seq(|S|, k requires 0 <= k < |S| => s[S[k]])
  }

  lemma AlongInjective(C: seq<ListHead>, S: seq<nat>)
    requires Injective(C) && InRange(S, |C|) && NoDup(S)
    ensures Injective(Along(C, S))
  {
    var C' := Along(C, S);
    forall i, j | 0 <= i < j < |C'| ensures C'[i] != C'[j] { InjectiveAt(C, S[i], S[j]); }
  }

  lemma AlongInList(C: seq<ListHead>, S: seq<nat>, list: ListHead?)
    requires IsList(C, S, list)
    ensures IsList(Along(C, S), Identity(|S|), list)
  {
    forall k | 0 <= k < |S| - 1 ensures Along(C, S)[k].next == Along(C, S)[k + 1] {
      assert C[S[k]].next == C[S[k + 1]];
    }
  }

  lemma AlongFrame(C: seq<ListHead>, D: seq<ListData>, S: seq<nat>)
    requires InRange(S, |C|) && InRange(S, |D|)
    ensures Cells(Along(C, S)) <= Cells(C) && Items(Along(D, S)) <= Items(D)
  {
    forall c | c in Along(C, S) ensures c in C {
      var k :| 0 <= k < |S| && Along(C, S)[k] == c;
    }
    forall d | d in Along(D, S) ensures d in D {
      var k :| 0 <= k < |S| && Along(D, S)[k] == d;
    }
  }

  lemma AlongHolds(C: seq<ListHead>, D: seq<ListData>, S: seq<nat>, list: ListHead?)
    requires Holds(C, D, S, list)
    ensures InRange(S, |C|) && |C| == |D| == |S| && list != null
    ensures Injective(Along(C, S)) && DataOf(Along(C, S), Along(D, S)) && IsList(Along(C, S), Identity(|C|), list)
    ensures Cells(Along(C, S)) <= Cells(C) && Items(Along(D, S)) <= Items(D)
  {
    AlongInjective(C, S);
    AlongInList(C, S, list);
    AlongFrame(C, D, S);
  }

  lemma AlongPermutation(S: seq<nat>, order: seq<nat>, n: nat)
    requires Permutation(S, n) && Permutation(order, n)
    ensures Permutation(Along(S, order), n)
  {}

  lemma AlongIsList(C: seq<ListHead>, S: seq<nat>, order: seq<nat>, list: ListHead?)
    requires Permutation(S, |C|) && Permutation(order, |C|) && IsList(Along(C, S), order, list)
    ensures IsList(C, Along(S, order), list)
  {}

  /** What sorting does to the data, whatever the order of the list. */
  ghost predicate DataSorted(cmp: Comparator, regen: bool, D: seq<ListData>, K: seq<Val>, S: seq<nat>)
    reads D
  {
    && |K| == |D| == |S| && InRange(S, |D|)
    && (forall i :: 0 <= i < |D| ==> Evolves(cmp, regen, K[i], ValOf(D[i])))
    && (|D| >= 2 ==> forall i :: 0 <= i < |D| ==> SeenVal(cmp, regen, ValOf(D[i])))
    && (forall a, b :: 0 <= a < b < |S| ==> LeVal(cmp, D[S[a]], ValOf(D[S[a]]), D[S[b]], ValOf(D[S[b]])))
  }

  /** Items that compare equal are in the order in which they were: `order` is where they were in the list. */
  ghost predicate TiesInOrder(cmp: Comparator, D: seq<ListData>, T: seq<nat>, order: seq<nat>)
    reads D
  {
    && |order| == |T| && InRange(T, |D|)
    && forall a, b :: 0 <= a < b < |T| && LeVal(cmp, D[T[b]], ValOf(D[T[b]]), D[T[a]], ValOf(D[T[a]])) ==>
         order[a] < order[b]
  }

  lemma SortedAlong(cmp: Comparator, regen: bool, D: seq<ListData>, K: seq<Val>, S: seq<nat>, order: seq<nat>,
                    v0: View, v: View)
    requires Permutation(S, |D|) && Permutation(order, |D|) && |K| == |D|
    requires v0 == View(cmp, regen, Along(D, S), Along(K, S)) && Extends(v0, v) && Current(v)
    requires Sorted(v, order) && (|D| >= 2 ==> AllSeen(v, order))
    ensures DataSorted(cmp, regen, D, K, Along(S, order)) && TiesInOrder(cmp, D, Along(S, order), order)
  {
    var T := Along(S, order);
    forall i | 0 <= i < |D|
      ensures Evolves(cmp, regen, K[i], ValOf(D[i])) && (|D| >= 2 ==> SeenVal(cmp, regen, ValOf(D[i])))
    {
      PermutationIsOnto(S, |D|, i);
      var k :| 0 <= k < |S| && S[k] == i;
      assert v.D[k] == D[i] && v.K[k] == ValOf(D[i]);
      assert Evolves(cmp, regen, v0.K[k], v.K[k]);
      if |D| >= 2 {
        PermutationIsOnto(order, |D|, k);
        var j :| 0 <= j < |order| && order[j] == k;
        assert Seen(v, order[j]);
      }
    }
    forall a, b | 0 <= a < b < |T|
      ensures LeVal(cmp, D[T[a]], ValOf(D[T[a]]), D[T[b]], ValOf(D[T[b]]))
      ensures LeVal(cmp, D[T[b]], ValOf(D[T[b]]), D[T[a]], ValOf(D[T[a]])) ==> order[a] < order[b]
    {
      assert Before(v, order[a], order[b]);
      assert v.D[order[a]] == D[T[a]] && v.D[order[b]] == D[T[b]];
    }
  }

  /** The view of the data `D`, taken in the order `S`. */
  ghost function ViewAlong(cmp: Comparator, regen: bool, D: seq<ListData>, S: seq<nat>): View
    requires InRange(S, |D|)
    reads D
  {
    View(cmp, regen, Along(D, S), Along(Snapshot(D), S))
  }

  lemma BeforeSort(cmp: Comparator, regen: bool, C: seq<ListHead>, D: seq<ListData>, S: seq<nat>, list: ListHead?)
    requires Holds(C, D, S, list) && !cmp.CmpPure?
    ensures InRange(S, |C|) && |C| == |D| == |S| && list != null
    ensures var C', v := Along(C, S), ViewAlong(cmp, regen, D, S);
            && |C'| == |C| && v.cmp == cmp && v.regen == regen && v.D == Along(D, S)
            && Injective(C') && IsList(C', Identity(|C'|), list)
            && DataOf(C', v.D) && Current(v) && Lawful(v)
            && Cells(C') <= Cells(C) && Items(v.D) <= Items(D)
  {
    AlongHolds(C, D, S, list);
    var v := ViewAlong(cmp, regen, D, S);
    assert v.D == Along(D, S);
  }

  lemma AfterSort(cmp: Comparator, regen: bool, C: seq<ListHead>, D: seq<ListData>, K: seq<Val>, S: seq<nat>,
                  order: seq<nat>, list: ListHead, v0: View, v: View)
    requires Injective(C) && |C| == |D| == |K| && Permutation(S, |C|) && Permutation(order, |C|)
    requires forall i :: 0 <= i < |C| ==> C[i].info == D[i]
    requires IsList(Along(C, S), order, list)
    requires v0 == View(cmp, regen, Along(D, S), Along(K, S)) && Extends(v0, v) && Current(v)
    requires Sorted(v, order) && (|D| >= 2 ==> AllSeen(v, order))
    ensures InRange(order, |S|)
    ensures Holds(C, D, Along(S, order), list) && DataSorted(cmp, regen, D, K, Along(S, order))
    ensures TiesInOrder(cmp, D, Along(S, order), order)
  {
    AlongPermutation(S, order, |C|);
    AlongIsList(C, S, order, list);
    SortedAlong(cmp, regen, D, K, S, order, v0, v);
  }

  lemma WhatHolds(C: seq<ListHead>, D: seq<ListData>, S: seq<nat>, list: ListHead?)
    requires Holds(C, D, S, list)
    ensures Injective(C) && Permutation(S, |C|) && |C| == |D| == |S| && InRange(S, |C|) && list != null
    ensures forall i :: 0 <= i < |C| ==> C[i].info == D[i]
  {}

  /** `core_list_mergesort` on a list in any order. */
  method SortList(list0: ListHead, cmp: Comparator, res: CoreResults?,
                  ghost C: seq<ListHead>, ghost D: seq<ListData>, ghost S: seq<nat>)
    returns (list: ListHead, ghost order: seq<nat>)
    requires |C| < 0x8000_0000 && Holds(C, D, S, list0) && !cmp.CmpPure? && (cmp.CmpComplex? ==> res != null)
    modifies Cells(C)`next, Items(D)`data16, res
    ensures res != null ==> res.seed3 == old(res.seed3)
    ensures Permutation(order, |C|) && InRange(order, |S|) && Holds(C, D, Along(S, order), list)
    ensures DataSorted(cmp, res == null, D, old(Snapshot(D)), Along(S, order))
    ensures TiesInOrder(cmp, D, Along(S, order), order)
  {
    hide *;
    BeforeSort(cmp, res == null, C, D, S, list0);
    WhatHolds(C, D, S, list0);
    ghost var K := Snapshot(D);
    ghost var v0 := ViewAlong(cmp, res == null, D, S);
    ViewAlongIs(cmp, res == null, D, S);
    ghost var v: View;
    list, order, v := MergeSort(list0, cmp, res, Along(C, S), v0);
    AfterSort(cmp, res == null, C, D, K, S, order, list, v0, v);
  }

  lemma ViewAlongIs(cmp: Comparator, regen: bool, D: seq<ListData>, S: seq<nat>)
    requires InRange(S, |D|)
    ensures ViewAlong(cmp, regen, D, S) == View(cmp, regen, Along(D, S), Along(Snapshot(D), S))
  {}

  // ----- the benchmark -----

  lemma ReversedHolds(C: seq<ListHead>, D: seq<ListData>, S: seq<nat>, list: ListHead?)
    requires Injective(C) && DataOf(C, D) && Permutation(S, |C|) && IsList(C, Reversed(S), list)
    ensures Holds(C, D, Reversed(S), list)
  {
    ReversedIsPermutation(S, |C|);
  }

  /** The first place in the order `S` at or behind `i` where an item matches, or the end. */
  ghost function FirstMatch(K: seq<Val>, S: seq<nat>, key: Key, i: nat): (k: nat)
    requires InRange(S, |K|) && i <= |S|
    ensures i <= k <= |S| && (forall j :: i <= j < k ==> !MatchesVal(K[S[j]], key))
    ensures k < |S| ==> MatchesVal(K[S[k]], key)
    decreases |S| - i
  {
    if i == |S| || MatchesVal(K[S[i]], key) then i else FirstMatch(K, S, key, i + 1)
  }

  /** The state of the search loop. */
  datatype Search = Search(order: seq<nat>, retval: nat, found: nat, missed: nat)

  ghost predicate IsSearch(K: seq<Val>, s: Search) { InRange(s.order, |K|) && |s.order| >= 2 }

  /** A list that was reversed, with the item that was at place `k`, and is followed by another, found in it. */
  ghost function Relinked(S: seq<nat>, k: nat): (T: seq<nat>)
    requires k <= |S|
    ensures |T| == |S|
  {
    if 0 < k < |S| then Moved(Reversed(S), |S| - 1 - k) else Reversed(S)
  }

  lemma RelinkedInRange(S: seq<nat>, k: nat, n: nat)
    requires k <= |S| && InRange(S, n)
    ensures InRange(Relinked(S, k), n)
  {}

  /** What one turn of the search loop does. */
  ghost function Turn(K: seq<Val>, s: Search, key: Key): (t: Search)
    requires IsSearch(K, s)
    ensures IsSearch(K, t)
  {
    var k := FirstMatch(K, s.order, key, 0);
    RelinkedInRange(s.order, k, |K|);
    var order := Relinked(s.order, k);
    if k == |s.order| then Search(order, s.retval + BitAt(K[order[1]].data16, 0x100), s.found, s.missed + 1)
    else
      var d := K[s.order[k]].data16;
      Search(order, s.retval + BitAt(d, 1) * BitAt(d, 0x200), s.found + 1, s.missed)
  }

  /** The bit of value `place` of a word. */
  function BitAt(d: bv16, place: bv16): (b: nat)
    requires place != 0
    ensures b <= 1
  {
    if d / place % 2 == 1 then 1 else 0
  }

  /** What the search adds up to: a hit counts 4 and a miss takes 1 away. */
  function SearchScore(s: Search): bv16 { ((s.retval + 4 * s.found - s.missed) % 0x1_0000) as bv16 }

  /** The key of the n-th turn. Its index counts up until it wraps around, and then stays. */
  function TurnKey(finderIdx: S16, n: nat): Key {
    Key((n % 0x100) as bv16,
        if finderIdx < 0 then finderIdx else if finderIdx + n <= 0x7fff then finderIdx + n else -0x8000)
  }

  /** What the key holds after `n` turns. Without a turn its data word has no value in the original; here it is 0. */
  function LastKey(finderIdx: S16, n: nat): Key {
    Key(if n > 0 then TurnKey(finderIdx, n - 1).data16 else 0, TurnKey(finderIdx, n).idx)
  }

  /** The search after `n` turns. */
  ghost function Turns(K: seq<Val>, S: seq<nat>, finderIdx: S16, n: nat): (s: Search)
    requires InRange(S, |K|) && |S| >= 2
    ensures IsSearch(K, s)
  {
    if n == 0 then Search(S, 0, 0, 0) else Turn(K, Turns(K, S, finderIdx, n - 1), TurnKey(finderIdx, n - 1))
  }

  /** Move the item behind the one found, if there is one, to the head. */
  method CacheNext(list: ListHead, thisFind: ListHead, ghost k: nat,
                   ghost C: seq<ListHead>, ghost D: seq<ListData>, ghost S: seq<nat>) returns (ghost T: seq<nat>)
    requires Holds(C, D, S, list) && k < |S| && thisFind == C[S[k]]
    modifies Cells(C)`next
    ensures T == if k + 1 < |S| then Moved(S, k) else S
    ensures Holds(C, D, T, list)
  {
    T := S;
    assert k + 1 < |S| ==> thisFind.next == C[S[k + 1]];
    if thisFind.next != null {
      MoveNext(list, thisFind, C, S, k);
      MovedIsPermutation(S, k, |C|);
      T := Moved(S, k);
    }
  }

  /** The part of a turn that changes the list: reverse it, and when an item was found and another is behind it,
      move that one to the head. */
  method ReverseAndCache(list0: ListHead, thisFind: ListHead?, ghost k: nat,
                         ghost C: seq<ListHead>, ghost D: seq<ListData>, ghost S: seq<nat>)
    returns (list: ListHead, ghost T: seq<nat>)
    requires |C| >= 2 && Holds(C, D, S, list0)
    requires k <= |S| && (if k < |S| then thisFind == C[S[k]] else thisFind == null)
    modifies Cells(C)`next
    ensures T == Relinked(S, k) && Holds(C, D, T, list)
  {
    hide *;
    WhatHolds(C, D, S, list0);
    RelinkedIs(S, k);
    list := ReverseHeld(list0, C, D, S);
    T := Reversed(S);
    if thisFind != null {
      ghost var j: nat := |S| - 1 - k;
      assert T[j] == S[k];
      T := CacheNext(list, thisFind, j, C, D, T);
    }
  }

  lemma RelinkedIs(S: seq<nat>, k: nat)
    requires k <= |S|
    ensures Relinked(S, k) == if 0 < k < |S| then Moved(Reversed(S), |S| - 1 - k) else Reversed(S)
    ensures k < |S| ==> Reversed(S)[|S| - 1 - k] == S[k]
  {}

  method ReverseHeld(list0: ListHead, ghost C: seq<ListHead>, ghost D: seq<ListData>, ghost S: seq<nat>)
    returns (list: ListHead)
    requires Holds(C, D, S, list0)
    modifies Cells(C)`next
    ensures Holds(C, D, Reversed(S), list)
  {
    var l := Reverse(list0, C, S);
    ReversedHolds(C, D, S, l);
    list := l;
  }

  lemma SecondCell(C: seq<ListHead>, D: seq<ListData>, S: seq<nat>, list: ListHead?)
    requires |C| >= 2 && Holds(C, D, S, list)
    ensures list != null && list.next != null && |S| >= 2 && S[1] < |D| && list.next.info == D[S[1]]
  {
    assert list.next == C[S[1]];
  }

  type U16 = x: int | 0 <= x < 0x1_0000

  lemma ShiftedBits(d: bv16)
    ensures ((d >> 8) & 1) as int == BitAt(d, 0x100)
    ensures d & 1 == 1 ==> ((d >> 9) & 1) as int == BitAt(d, 1) * BitAt(d, 0x200)
    ensures d & 1 != 1 ==> BitAt(d, 1) == 0
  {
    assert (d >> 8) & 1 == 0 || (d >> 8) & 1 == 1;
    assert (d >> 9) & 1 == 0 || (d >> 9) & 1 == 1;
  }

  lemma TurnIs(K: seq<Val>, s: Search, key: Key, k: nat, T: seq<nat>)
    requires IsSearch(K, s) && k == FirstMatch(K, s.order, key, 0) && T == Relinked(s.order, k)
    ensures InRange(T, |K|) && |T| >= 2
    ensures k == |s.order| ==>
              Turn(K, s, key) == Search(T, s.retval + BitAt(K[T[1]].data16, 0x100), s.found, s.missed + 1)
    ensures k < |s.order| ==>
              var d := K[s.order[k]].data16;
              Turn(K, s, key) == Search(T, s.retval + BitAt(d, 1) * BitAt(d, 0x200), s.found + 1, s.missed)
  {
    hide FirstMatch, Relinked, BitAt, MatchesVal;
    RelinkedInRange(s.order, k, |K|);
  }

  /** One turn of the search: find, reverse and move the item behind the one found to the head. */
  method FindOnce(list0: ListHead, key: Key, retval0: U16, found0: U16, missed0: U16,
                  ghost C: seq<ListHead>, ghost D: seq<ListData>, ghost S: seq<nat>, ghost K: seq<Val>)
    returns (list: ListHead, retval: U16, found: U16, missed: U16, ghost T: seq<nat>)
    requires |C| >= 2 && Holds(C, D, S, list0) && IsSearch(K, Search(S, retval0, found0, missed0)) && Values(D, K)
    requires retval0 < 0xffff && found0 < 0xffff && missed0 < 0xffff
    modifies Cells(C)`next
    ensures Values(D, K) && Holds(C, D, T, list)
    ensures Search(T, retval, found, missed) == Turn(K, Search(S, retval0, found0, missed0), key)
  {
    hide Holds, Matches, MatchesVal, Permutation, Relinked, Values, BitAt, Turn, FirstMatch;
    var thisFind: ListHead?;
    ghost var k: nat;
    WhatHolds(C, D, S, list0);
    HoldsList(C, D, S, list0);
    thisFind, k := Find(list0, key, C, S);
    FindIsFirst(C, D, S, S, K, key, k);
    retval, found, missed := retval0, found0, missed0;
    list, T := ReverseAndCache(list0, thisFind, k, C, D, S);
    SecondCell(C, D, T, list);
    TurnIs(K, Search(S, retval0, found0, missed0), key, k, T);
    if thisFind == null {
      missed := (missed + 1) % 0x1_0000;
      ValueAt(D, K, T[1]);
      ShiftedBits(list.next.info.data16);
      retval := (retval + ((list.next.info.data16 >> 8) & 1) as int) % 0x1_0000;
    } else {
      found := (found + 1) % 0x1_0000;
      ValueAt(D, K, S[k]);
      ShiftedBits(thisFind.info.data16);
      if thisFind.info.data16 & 1 == 1 {
        retval := (retval + ((thisFind.info.data16 >> 9) & 1) as int) % 0x1_0000;
      }
    }
  }

  /** The data holds the values `K`. */
  ghost predicate Values(D: seq<ListData>, K: seq<Val>)
    reads D
  {
    |K| == |D| && forall i :: 0 <= i < |D| ==> ValOf(D[i]) == K[i]
  }

  lemma ValueAt(D: seq<ListData>, K: seq<Val>, i: nat)
    requires Values(D, K) && i < |D|
    ensures |K| == |D| && D[i].data16 == K[i].data16 && D[i].idx == K[i].idx
  {}

  lemma ValuesAre(D: seq<ListData>, K: seq<Val>)
    ensures Values(D, K) <==> Snapshot(D) == K
  {}

  /** What `Find` finds, in cells that hold the data in the order `X`, is the first match among the values. */
  lemma FindIsFirst(C: seq<ListHead>, D: seq<ListData>, W: seq<nat>, X: seq<nat>, K: seq<Val>, key: Key, k: nat)
    requires |W| == |X| && InRange(W, |C|) && InRange(X, |D|) && Values(D, K)
    requires forall i :: 0 <= i < |W| ==> C[W[i]].info == D[X[i]]
    requires k <= |W| && forall i :: 0 <= i < k ==> !Matches(C[W[i]].info, key)
    requires k < |W| ==> Matches(C[W[k]].info, key)
    ensures InRange(X, |K|) && k == FirstMatch(K, X, key, 0)
  {
    hide MatchesVal;
    forall i | 0 <= i < k ensures !MatchesVal(K[X[i]], key) {
      assert !Matches(C[W[i]].info, key);
    }
    FirstMatchIs(K, X, key, 0, k);
  }

  lemma {:induction false} FirstMatchIs(K: seq<Val>, S: seq<nat>, key: Key, i: nat, k: nat)
    requires InRange(S, |K|) && i <= k <= |S| && forall j :: i <= j < k ==> !MatchesVal(K[S[j]], key)
    requires k < |S| ==> MatchesVal(K[S[k]], key)
    ensures FirstMatch(K, S, key, i) == k
    decreases k - i
  {
    hide MatchesVal;
    if i < k {
      FirstMatchIs(K, S, key, i + 1, k);
    }
  }

  lemma HoldsList(C: seq<ListHead>, D: seq<ListData>, S: seq<nat>, list: ListHead?)
    requires Holds(C, D, S, list)
    ensures IsList(C, S, list)
  {}

  /** The search loop: `find_num` turns, with the data key counting up and the index key too until it is negative. */
  method FindLoop(list0: ListHead, findNum: S16, finderIdx: S16,
                  ghost C: seq<ListHead>, ghost D: seq<ListData>, ghost S: seq<nat>, ghost K: seq<Val>)
    returns (list: ListHead, key: Key, retval: bv16, ghost T: seq<nat>)
    requires |C| >= 2 && Holds(C, D, S, list0) && InRange(S, |K|) && |S| >= 2 && Values(D, K)
    modifies Cells(C)`next
    ensures Holds(C, D, T, list) && Values(D, K)
    ensures var n := if findNum > 0 then findNum else 0;
            var s := Turns(K, S, finderIdx, n);
            T == s.order && retval == SearchScore(s) && key == LastKey(finderIdx, n)
  {
    hide *;
    list, T := list0, S;
    var sum: U16, found: U16, missed: U16 := 0, 0, 0;
    key := Key(0, finderIdx);
    var i := 0;
    NoTurns(K, S, finderIdx);
    while i < findNum
      invariant 0 <= i <= (if findNum > 0 then findNum else 0) && Holds(C, D, T, list) && Values(D, K)
      invariant Search(T, sum, found, missed) == Turns(K, S, finderIdx, i) && sum <= i && found + missed == i
      invariant key == LastKey(finderIdx, i)
    {
      TurnsNext(K, S, finderIdx, i);
      TurnCounts(K, S, finderIdx, i);
      key := Key((i % 0x100) as bv16, key.idx);
      list, sum, found, missed, T := FindOnce(list, key, sum, found, missed, C, D, T, K);
      if key.idx >= 0 {
        key := key.(idx := if key.idx == 0x7fff then -0x8000 else key.idx + 1);
      }
      i := i + 1;
    }
    ScoreIsSum(Turns(K, S, finderIdx, i), sum, found, missed);
    retval := ((sum + (found * 4 - missed)) % 0x1_0000) as bv16;
  }

  lemma ScoreIsSum(s: Search, sum: nat, found: nat, missed: nat)
    requires s.retval == sum && s.found == found && s.missed == missed
    ensures SearchScore(s) == ((sum + (found * 4 - missed)) % 0x1_0000) as bv16
  {}

  lemma TurnCounts(K: seq<Val>, S: seq<nat>, finderIdx: S16, n: nat)
    requires InRange(S, |K|) && |S| >= 2
    ensures var s, t := Turns(K, S, finderIdx, n), Turns(K, S, finderIdx, n + 1);
            t.found + t.missed == s.found + s.missed + 1 && s.retval <= t.retval <= s.retval + 1
  {
    hide FirstMatch, Relinked, BitAt, Turns;
    TurnsNext(K, S, finderIdx, n);
    AtMostOne();
  }

  lemma AtMostOne()
    ensures forall d: bv16 :: 0 <= BitAt(d, 1) * BitAt(d, 0x200) <= 1
  {}

  /** A search of `n` turns has had `n` hits and misses. */
  lemma {:induction false} EveryTurnCounts(K: seq<Val>, S: seq<nat>, finderIdx: S16, n: nat)
    requires InRange(S, |K|) && |S| >= 2
    ensures var s := Turns(K, S, finderIdx, n);
            s.found + s.missed == n && s.retval <= n && (n == 0 ==> s.retval + 4 * s.found - s.missed == 0)
  {
    hide Turns;
    if n == 0 {
      NoTurns(K, S, finderIdx);
    } else {
      EveryTurnCounts(K, S, finderIdx, n - 1);
      TurnCounts(K, S, finderIdx, n - 1);
    }
  }

  /**
   A turn changes the score by 4, and by the bit 9 of the word found if that is odd, or else by -1 and the bit 8 of the
   second word of the new list.
   */
  lemma OneMoreTurn(K: seq<Val>, S: seq<nat>, finderIdx: S16, n: nat)
    requires InRange(S, |K|) && |S| >= 2
    ensures var s, t := Turns(K, S, finderIdx, n), Turns(K, S, finderIdx, n + 1);
            var k := FirstMatch(K, s.order, TurnKey(finderIdx, n), 0);
            t.retval + 4 * t.found - t.missed - (s.retval + 4 * s.found - s.missed) ==
            if k == |s.order| then (if Bit8(K[t.order[1]].data16) then 1 else 0) - 1
            else 4 + if OddWithBit9(K[s.order[k]].data16) then 1 else 0
  {
    hide FirstMatch, Relinked, BitAt, Turns, Bit8, OddWithBit9;
    var s := Turns(K, S, finderIdx, n);
    var k := FirstMatch(K, s.order, TurnKey(finderIdx, n), 0);
    TurnsNext(K, S, finderIdx, n);
    if k < |s.order| {
      BitsAt(K[s.order[k]].data16);
    } else {
      BitsAt(K[Turns(K, S, finderIdx, n + 1).order[1]].data16);
    }
  }

  predicate Bit8(d: bv16) { d & 0x0100 != 0 }

  predicate OddWithBit9(d: bv16) { d & 0x0201 == 0x0201 }

  lemma BitsAt(d: bv16)
    ensures BitAt(d, 0x100) == if Bit8(d) then 1 else 0
    ensures BitAt(d, 1) * BitAt(d, 0x200) == if OddWithBit9(d) then 1 else 0
  {
    assert d & 0x0201 == 0x0201 <==> d & 1 != 0 && d & 0x0200 != 0;
    assert d / 0x200 % 2 == 1 <==> d & 0x0200 != 0;
  }

  lemma NoTurns(K: seq<Val>, S: seq<nat>, finderIdx: S16)
    requires InRange(S, |K|) && |S| >= 2
    ensures Turns(K, S, finderIdx, 0) == Search(S, 0, 0, 0) && LastKey(finderIdx, 0) == Key(0, finderIdx)
  {}

  lemma TurnsNext(K: seq<Val>, S: seq<nat>, finderIdx: S16, n: nat)
    requires InRange(S, |K|) && |S| >= 2
    ensures IsSearch(K, Turns(K, S, finderIdx, n))
    ensures Turns(K, S, finderIdx, n + 1) == Turn(K, Turns(K, S, finderIdx, n), TurnKey(finderIdx, n))
    ensures TurnKey(finderIdx, n) == Key((n % 0x100) as bv16, LastKey(finderIdx, n).idx)
    ensures var x := LastKey(finderIdx, n).idx;
            LastKey(finderIdx, n + 1) ==
            Key((n % 0x100) as bv16, if x < 0 then x else if x == 0x7fff then -0x8000 else x + 1)
  {}

  /** The head's word enters the CRC once for every cell from the finder to the end of the list. */
  method CrcWalk(list: ListHead, finder0: ListHead?, retval0: bv16, ghost C: seq<ListHead>, ghost S: seq<nat>,
                 ghost k: nat)
    returns (retval: bv16)
    requires IsList(C, S, list) && k <= |S| && finder0 == if k < |S| then C[S[k]] else null
    ensures retval == CrcRepeat(list.info.data16, retval0, |S| - k)
  {
    var finder := finder0;
    retval := retval0;
    ghost var j := k;
    while finder != null
      invariant k <= j <= |S| && finder == if j < |S| then C[S[j]] else null
      invariant CrcRepeat(list.info.data16, retval, |S| - j) == CrcRepeat(list.info.data16, retval0, |S| - k)
      decreases |S| - j
    {
      assert j + 1 < |S| ==> finder.next == C[S[j + 1]];
      retval := Crc16(list.info.data16, retval);
      finder := finder.next;
      j := j + 1;
    }
  }

  ghost function CrcRepeat(d: bv16, crc: bv16, n: nat): bv16
    decreases n
  {
    if n == 0 then crc else CrcRepeat(d, Crc16(d, crc), n - 1)
  }

  /** How many cells the walk over the list without its second item visits: from the first match, or from the
      second cell, to the end. */
  ghost function WalkLength(K: seq<Val>, S: seq<nat>, key: Key): nat
    requires InRange(S, |K|) && |S| >= 3
  {
    var W := Without(S, 1);
    var k := FirstMatch(K, W, key, 0);
    |W| - if k == |W| then 1 else k
  }

  /** The walk over a list that has lost its second item. */
  method WalkRemoved(list: ListHead, key: Key, retval0: bv16,
                     ghost C: seq<ListHead>, ghost D: seq<ListData>, ghost S: seq<nat>, ghost K: seq<Val>)
    returns (retval: bv16)
    requires |C| == |D| == |S| >= 3 && InRange(S, |C|) && InRange(S, |K|) && Values(D, K)
    requires IsList(C, Without(S, 2), list)
    requires forall i :: 0 <= i < |S| - 1 ==> C[Without(S, 2)[i]].info == D[Without(S, 1)[i]]
    ensures retval == CrcRepeat(K[S[0]].data16, retval0, WalkLength(K, S, key))
  {
    hide MatchesVal, CrcRepeat, Values;
    ghost var W, X := Without(S, 2), Without(S, 1);
    var finder: ListHead?;
    ghost var k: nat;
    finder, k := Find(list, key, C, W);
    FindIsFirst(C, D, W, X, K, key, k);
    if finder == null {
      assert list.next == C[W[1]];
      finder, k := list.next, 1;
    }
    retval := CrcWalk(list, finder, retval0, C, W, k);
    assert list.info == D[X[0]];
    ValueAt(D, K, S[0]);
  }

  lemma ThreeCells(C: seq<ListHead>, D: seq<ListData>, S: seq<nat>, list: ListHead)
    requires |C| >= 3 && Holds(C, D, S, list)
    ensures Injective(C) && IsList(C, S, list) && NoDup(S) && InRange(S, |C|) && |S| == |C| == |D|
    ensures list == C[S[0]] && list.next == C[S[1]] && C[S[1]].next == C[S[2]]
    ensures forall i, j :: 0 <= i < |S| && 0 <= j < |S| && i != j ==> C[S[i]] != C[S[j]]
    ensures forall i :: 0 <= i < |S| ==> C[S[i]].info == D[S[i]]
  {
    forall i, j | 0 <= i < |S| && 0 <= j < |S| && i != j ensures C[S[i]] != C[S[j]] { InjectiveAt(C, S[i], S[j]); }
    assert C[S[0]].next == C[S[1]] && C[S[1]].next == C[S[2]];
  }

  /** Remove one item, go over what is left of the list, and undo the removal. */
  method RemoveWalkUndo(list: ListHead, key: Key, retval0: bv16,
                        ghost C: seq<ListHead>, ghost D: seq<ListData>, ghost S: seq<nat>, ghost K: seq<Val>)
    returns (retval: bv16)
    requires |C| >= 3 && Holds(C, D, S, list) && Values(D, K) && InRange(S, |K|) && |S| == |C|
    modifies Cells(C)
    ensures forall c :: c in C ==> c.next == old(c.next) && c.info == old(c.info)
    ensures Holds(C, D, S, list) && Values(D, K)
    ensures retval == CrcRepeat(K[S[0]].data16, retval0, WalkLength(K, S, key))
  {
    hide CrcRepeat, WalkLength, Injective, NoDup, Permutation, Values, Cells;
    ThreeCells(C, D, S, list);
    var remover := Remove(list.next, C, S, 1, list);
    retval := WalkRemoved(list, key, retval0, C, D, S, K);
    remover := UndoRemove(remover, list.next);
    assert forall c :: c in C ==> c.next == old(c.next) && c.info == old(c.info);
  }

  lemma {:induction false} IncreasingAbove(T: seq<nat>, k: nat)
    requires forall a, b :: 0 <= a < b < |T| ==> T[a] < T[b]
    requires k < |T|
    ensures k <= T[k]
  {
    if k > 0 { IncreasingAbove(T, k - 1); }
  }

  lemma {:induction false} IncreasingBelow(T: seq<nat>, k: nat, n: nat)
    requires forall a, b :: 0 <= a < b < |T| ==> T[a] < T[b]
    requires k < |T| == n && Within(T, 0, n)
    ensures T[k] <= k
    decreases n - k
  {
    if k + 1 < n { IncreasingBelow(T, k + 1, n); }
  }

  /** The items are in the order of their indices. */
  ghost predicate IndexSorted(K: seq<Val>) { forall i, j :: 0 <= i < j < |K| ==> K[i].idx <= K[j].idx }

  /** The indices are pairwise distinct and in order. */
  ghost predicate Increasing(K: seq<Val>) { forall i, j :: 0 <= i < j < |K| ==> K[i].idx < K[j].idx }

  /** In the order `T`, items of equal index are in their original order. */
  ghost predicate KeepsTies(K: seq<Val>, T: seq<nat>) {
    forall a, b :: 0 <= a < b < |T| ==>
      (T[a] < |K| && T[b] < |K| && (K[T[a]].idx == K[T[b]].idx ==> T[a] < T[b]))
  }

  /** `order` sorts the items that are in the order `T` by index, and is stable. */
  ghost predicate SortsByIndex(K: seq<Val>, T: seq<nat>, order: seq<nat>) {
    && Permutation(T, |K|) && Permutation(order, |K|)
    && forall a, b :: 0 <= a < b < |K| ==>
         (order[a] < |T| && order[b] < |T| && T[order[a]] < |K| && T[order[b]] < |K| &&
          K[T[order[a]]].idx <= K[T[order[b]]].idx &&
          (K[T[order[a]]].idx == K[T[order[b]]].idx ==> order[a] < order[b]))
  }

  /** Sorting by index gives back the original order exactly when that was an order by index, and items of equal
      index have kept their order. */
  lemma IdentityExactlyWhen(K: seq<Val>, T: seq<nat>, order: seq<nat>)
    requires SortsByIndex(K, T, order)
    ensures InRange(order, |T|)
    ensures Along(T, order) == Identity(|K|) <==> IndexSorted(K) && KeepsTies(K, T)
  {
    var F := Along(T, order);
    if IndexSorted(K) && KeepsTies(K, T) {
      AlongPermutation(T, order, |K|);
      forall a, b | 0 <= a < b < |F| ensures F[a] < F[b] {
        assert F[a] != F[b] && F[a] < |K| && F[b] < |K|;
        assert order[a] < order[b] ==> (K[F[a]].idx == K[F[b]].idx ==> F[a] < F[b]);
        }
      IncreasingIsIdentity(F);
    }
    if F == Identity(|K|) {
      forall i, j | 0 <= i < j < |K| ensures K[i].idx <= K[j].idx {
        assert F[i] == i && F[j] == j;
      }
      forall a, b | 0 <= a < b < |T|
        ensures T[a] < |K| && T[b] < |K| && (K[T[a]].idx == K[T[b]].idx ==> T[a] < T[b])
      {
        var x, y := T[a], T[b];
        assert T[order[x]] == F[x] == x && T[order[y]] == F[y] == y;
        assert order[x] == a && order[y] == b;
        assert x != y;
      }
    }
  }

  lemma IncreasingIsIdentity(F: seq<nat>)
    requires Within(F, 0, |F|) && forall a, b :: 0 <= a < b < |F| ==> F[a] < F[b]
    ensures F == Identity(|F|)
  {
    forall k | 0 <= k < |F| ensures F[k] == k {
      IncreasingAbove(F, k);
      IncreasingBelow(F, k, |F|);
    }
  }

  /** With pairwise distinct indices in increasing order there are no ties to lose. */
  lemma DistinctIndicesKeepTies(K: seq<Val>, T: seq<nat>)
    requires Permutation(T, |K|) && Increasing(K)
    ensures IndexSorted(K) && KeepsTies(K, T)
  {
    forall a, b | 0 <= a < b < |T|
      ensures T[a] < |K| && T[b] < |K| && (K[T[a]].idx == K[T[b]].idx ==> T[a] < T[b])
    {
      assert T[a] != T[b];
    }
  }

  /** Where the item that is at place `r` goes when the one behind place `p` is moved behind the first. */
  ghost function Target(p: nat, r: nat): nat {
    if r == 0 then 0 else if r == p + 1 then 1 else if r <= p then r + 1 else r
  }

  /** Where the items `i < j` of a list are after it was reversed and the item before the one at place `k` was moved. */
  lemma PairRelinked(n: nat, k: nat, i: nat, j: nat)
    requires 2 <= n && k <= n && i < j < n && !(i + 1 == k && k <= j)
    ensures var T := Relinked(Identity(n), k);
            exists a, b :: 0 <= a < b < n && T[a] == j && T[b] == i
  {
    var R, T := Reversed(Identity(n)), Relinked(Identity(n), k);
    var x, y := n - 1 - j, n - 1 - i;
    assert R[x] == j && R[y] == i;
    if 0 < k < n {
      var p := n - 1 - k;
      var a, b := Target(p, x), Target(p, y);
      assert T[a] == R[Source(p, a)] == j && T[b] == R[Source(p, b)] == i;
    }
  }

  lemma FirstTurn(K: seq<Val>)
    requires |K| >= 2
    ensures var S := Identity(|K|);
            InRange(S, |K|) && Turns(K, S, 0, 1).order == Relinked(S, FirstMatch(K, S, Key(0, 0), 0))
  {
    hide Relinked, FirstMatch;
    NoTurns(K, Identity(|K|), 0);
    TurnsNext(K, Identity(|K|), 0, 0);
  }

  /**
   One turn that looks for the index 0 exchanges every two items of equal index. It reverses the list and moves the
   item before the first one of index 0; the index of that one is negative, so it passes no item of its own index.
   */
  lemma OneTurnLosesTies(K: seq<Val>, i: nat, j: nat)
    requires |K| >= 2 && IndexSorted(K) && i < j < |K| && K[i].idx == K[j].idx
    ensures !KeepsTies(K, Turns(K, Identity(|K|), 0, 1).order)
  {
    hide Relinked, Turns;
    var S := Identity(|K|);
    FirstTurn(K);
    var k := FirstMatch(K, S, Key(0, 0), 0);
    if 0 < k <= j {
      assert !MatchesVal(K[S[k - 1]], Key(0, 0)) && MatchesVal(K[S[k]], Key(0, 0));
      assert K[k - 1].idx < K[k].idx <= K[j].idx;
    }
    PairRelinked(|K|, k, i, j);
  }

  /** Whatever `finderIdx`, the number of turns and the results of the evaluation: the list is restored. */
  ghost predicate AlwaysRestored(K: seq<Val>)
    requires |K| >= 2
  {
    forall finderIdx: S16, n: nat, K1, T ::
      FirstSort(finderIdx, K, Turns(K, Identity(|K|), finderIdx, n).order, K1, T) && Permutation(T, |K|) ==>
        IndexSorted(K) && KeepsTies(K, T)
  }

  lemma NoFirstSort(K: seq<Val>, n: nat)
    requires |K| >= 2
    ensures var T := Turns(K, Identity(|K|), 0, n).order; FirstSort(0, K, T, K, T)
  {}

  /** Strictly increasing indices are what it takes: for all others a turn, or none, is enough to lose the order. */
  lemma AlwaysRestoredExactlyWhen(K: seq<Val>)
    requires |K| >= 2
    ensures AlwaysRestored(K) <==> Increasing(K)
    ensures !Increasing(K) ==> var T := Turns(K, Identity(|K|), 0, 1).order; !(IndexSorted(K) && KeepsTies(K, T))
  {
    hide Turns, FirstSort, KeepsTies, Permutation;
    if Increasing(K) {
      forall finderIdx: S16, n: nat, K1, T |
        FirstSort(finderIdx, K, Turns(K, Identity(|K|), finderIdx, n).order, K1, T) && Permutation(T, |K|)
        ensures IndexSorted(K) && KeepsTies(K, T)
      {
        DistinctIndicesKeepTies(K, T);
      }
    } else {
      var T := Turns(K, Identity(|K|), 0, 1).order;
      if IndexSorted(K) {
        var i, j :| 0 <= i < j < |K| && K[i].idx >= K[j].idx;
        OneTurnLosesTies(K, i, j);
      }
      NoFirstSort(K, 1);
      OneTurnPermutes(K);
    }
  }

  lemma IdentityPermutes(n: nat)
    ensures Permutation(Identity(n), n)
  {}

  lemma OneTurnPermutes(K: seq<Val>)
    requires |K| >= 2
    ensures Permutation(Turns(K, Identity(|K|), 0, 1).order, |K|)
  {
    hide Turns, FirstMatch, Relinked, Permutation;
    var n, S := |K|, Identity(|K|);
    FirstTurn(K);
    var k := FirstMatch(K, S, Key(0, 0), 0);
    RelinkedIs(S, k);
    IdentityPermutes(n);
    ReversedIsPermutation(S, n);
    if 0 < k < n {
      MovedIsPermutation(Reversed(S), n - 1 - k, n);
    }
  }

  /** Whatever the two sorts do in between, each data word ends as its high byte says. */
  lemma DataRebuilt(x: Val, y: Val, z: Val)
    requires Evolves(CmpComplex, false, x, y)
    requires Evolves(CmpIdx, true, y, z) && SeenVal(CmpIdx, true, z)
    ensures z == Val(Regen(x.data16), x.idx)
  {
    RegenFacts(y.data16);
    RegenFromHigh(x.data16, y.data16);
    RegenFacts(x.data16);
  }

  /** The values, each rebuilt from its high byte. */
  ghost function Rebuilt(K: seq<Val>): (R: seq<Val>)
    ensures |R| == |K| && forall i :: 0 <= i < |K| ==> R[i] == Val(Regen(K[i].data16), K[i].idx)
  {
    seq(|K|, i requires 0 <= i < |K| => Val(Regen(K[i].data16), K[i].idx))
  }

  /** After the last sort. */
  lemma AfterIndexSort(C: seq<ListHead>, D: seq<ListData>, K0: seq<Val>, K1: seq<Val>, T: seq<nat>, order: seq<nat>)
    requires |C| == |D| == |K0| == |T| >= 2 && Permutation(T, |C|) && Permutation(order, |C|) && InRange(order, |T|)
    requires DataSorted(CmpIdx, true, D, K1, Along(T, order)) && TiesInOrder(CmpIdx, D, Along(T, order), order)
    requires Complexed(K0, K1)
    ensures Values(D, Rebuilt(K0)) && SortsByIndex(K0, T, order)
  {
    forall i | 0 <= i < |D| ensures ValOf(D[i]) == Rebuilt(K0)[i] { DataRebuilt(K0[i], K1[i], ValOf(D[i])); }
    var F := Along(T, order);
    forall a, b | 0 <= a < b < |F|
      ensures F[a] < |K0| && F[b] < |K0| && K0[F[a]].idx <= K0[F[b]].idx
      ensures K0[F[a]].idx == K0[F[b]].idx ==> order[a] < order[b]
    {
      assert ValOf(D[F[a]]) == Rebuilt(K0)[F[a]] && ValOf(D[F[b]]) == Rebuilt(K0)[F[b]];
      assert LeVal(CmpIdx, D[F[a]], ValOf(D[F[a]]), D[F[b]], ValOf(D[F[b]]));
    }
  }

  /** Sorting by content takes the values from `K0` to `K1`: each is evaluated, and keeps its backup and its index. */
  ghost predicate Complexed(K0: seq<Val>, K1: seq<Val>) {
    |K0| == |K1| && forall i :: 0 <= i < |K0| ==> Evolves(CmpComplex, false, K0[i], K1[i])
  }

  /** `T` is an order of the values by the results they have cached. */
  ghost predicate ByContent(K: seq<Val>, T: seq<nat>) {
    && Permutation(T, |K|)
    && (forall i :: 0 <= i < |K| ==> Cached(K[i].data16))
    && (forall a, b :: 0 <= a < b < |T| ==>
          (T[a] < |K| && T[b] < |K| && Low7(K[T[a]].data16) as int <= Low7(K[T[b]].data16) as int))
  }

  /** Items with equal results are in `T` in the order in which they were in `S`. */
  ghost predicate StableFrom(K: seq<Val>, S: seq<nat>, T: seq<nat>) {
    forall a, b, i, j :: 0 <= a < b < |T| && 0 <= i < |S| && 0 <= j < |S| && S[i] == T[a] && S[j] == T[b] ==>
      (T[a] < |K| && T[b] < |K| && (Low7(K[T[a]].data16) == Low7(K[T[b]].data16) ==> i < j))
  }

  /** The first sort, which takes place only if `finder_idx` is positive. */
  ghost predicate FirstSort(finderIdx: S16, K0: seq<Val>, S: seq<nat>, K1: seq<Val>, T: seq<nat>) {
    && Complexed(K0, K1)
    && (finderIdx <= 0 ==> K1 == K0 && T == S)
    && (finderIdx > 0 ==> ByContent(K1, T) && StableFrom(K1, S, T))
  }

  lemma FirstSortBySorting(finderIdx: S16, C: seq<ListHead>, D: seq<ListData>, K0: seq<Val>, S: seq<nat>,
                           order: seq<nat>,
                           T: seq<nat>, list: ListHead?)
    requires finderIdx <= 0 ==> K0 == Snapshot(D) && T == S
    requires finderIdx > 0 ==> |D| >= 2 && DataSorted(CmpComplex, false, D, K0, T) && Holds(C, D, T, list)
    requires finderIdx > 0 ==>
               NoDup(S) && InRange(order, |S|) && T == Along(S, order) && TiesInOrder(CmpComplex, D, T, order)
    ensures FirstSort(finderIdx, K0, S, Snapshot(D), T)
  {
    if finderIdx > 0 {
      ByContentBySorting(C, D, K0, T, list);
      StableBySorting(D, S, order, T);
    }
  }

  lemma ByContentBySorting(C: seq<ListHead>, D: seq<ListData>, K0: seq<Val>, T: seq<nat>, list: ListHead?)
    requires |D| >= 2 && DataSorted(CmpComplex, false, D, K0, T) && Holds(C, D, T, list)
    ensures ByContent(Snapshot(D), T)
  {
    var K := Snapshot(D);
    forall a, b | 0 <= a < b < |T|
      ensures 0 <= T[a] < |K| && 0 <= T[b] < |K| && Low7(K[T[a]].data16) as int <= Low7(K[T[b]].data16) as int
    {
      assert LeVal(CmpComplex, D[T[a]], ValOf(D[T[a]]), D[T[b]], ValOf(D[T[b]]));
    }
    forall i | 0 <= i < |K| ensures Cached(K[i].data16) {
      assert SeenVal(CmpComplex, false, ValOf(D[i]));
    }
  }

  lemma StableBySorting(D: seq<ListData>, S: seq<nat>, order: seq<nat>, T: seq<nat>)
    requires NoDup(S) && InRange(order, |S|) && T == Along(S, order) && TiesInOrder(CmpComplex, D, T, order)
    ensures StableFrom(Snapshot(D), S, T)
  {
    hide Low7;
    var K := Snapshot(D);
    forall a, b, i, j | 0 <= a < b < |T| && 0 <= i < |S| && 0 <= j < |S| && S[i] == T[a] && S[j] == T[b]
      ensures T[a] < |K| && T[b] < |K| && (Low7(K[T[a]].data16) == Low7(K[T[b]].data16) ==> i < j)
    {
      assert order[a] == i && order[b] == j;
      assert ValOf(D[T[a]]) == K[T[a]] && ValOf(D[T[b]]) == K[T[b]];
    }
  }

  /** From the first sort to the last: `T` and `K` are the order and the values between them. */
  method SortWalkSort(list0: ListHead, key: Key, retval0: bv16, finderIdx: S16, res: CoreResults,
                      ghost C: seq<ListHead>, ghost D: seq<ListData>, ghost S: seq<nat>)
    returns (list: ListHead, retval: bv16, ghost T: seq<nat>, ghost K: seq<Val>, ghost order: seq<nat>)
    requires 3 <= |C| < 0x8000_0000 && Holds(C, D, S, list0)
    modifies Cells(C), Items(D)`data16, res
    ensures FirstSort(finderIdx, old(Snapshot(D)), S, K, T) && InRange(T, |K|) && |T| == |C|
    ensures retval == CrcRepeat(K[T[0]].data16, retval0, WalkLength(K, T, key))
    ensures SortsByIndex(old(Snapshot(D)), T, order) && InRange(order, |T|)
    ensures Values(D, Rebuilt(old(Snapshot(D)))) && Holds(C, D, Along(T, order), list)
  {
    hide *;
    list := list0;
    ghost var K0 := Snapshot(D);
    T, order := S, Identity(|S|);
    WhatHolds(C, D, S, list0);
    NoDupOf(S, |C|);
    if finderIdx > 0 {
      list, order := SortList(list0, CmpComplex, res, C, D, S);
      T := Along(S, order);
    }
    K := Snapshot(D);
    WhatHolds(C, D, T, list);
    FirstSortBySorting(finderIdx, C, D, K0, S, order, T, list);
    ValuesAre(D, K);
    retval := RemoveWalkUndo(list, key, retval0, C, D, T, K);
    ValuesAre(D, K);
    FirstSortIsComplexed(finderIdx, K0, S, K, T);
    list, order := SortList(list, CmpIdx, null, C, D, T);
    AfterIndexSort(C, D, K0, K, T, order);
  }

  lemma NoDupOf(S: seq<nat>, n: nat)
    requires Permutation(S, n)
    ensures NoDup(S)
  {}

  lemma FirstSortIsComplexed(finderIdx: S16, K0: seq<Val>, S: seq<nat>, K1: seq<Val>, T: seq<nat>)
    requires FirstSort(finderIdx, K0, S, K1, T)
    ensures Complexed(K0, K1)
  {}

  /** The cells of `C` are linked as they are numbered. */
  ghost predicate InLine(C: seq<ListHead>)
    reads C
  {
    C != [] && C[|C| - 1].next == null && forall i :: 0 <= i < |C| - 1 ==> C[i].next == C[i + 1]
  }

  /** The cells of `C` are linked in the order `F`. */
  ghost predicate Linked(C: seq<ListHead>, F: seq<nat>)
    reads C
  {
    F != [] && Chained(C, F) && C[F[|F| - 1]].next == null
  }

  lemma HoldsInLine(C: seq<ListHead>, D: seq<ListData>)
    requires Injective(C) && DataOf(C, D) && InLine(C)
    ensures Holds(C, D, Identity(|C|), C[0])
  {}

  /** A list of all cells is linked as they are numbered exactly when it is in that order. */
  lemma InLineExactlyWhen(C: seq<ListHead>, D: seq<ListData>, F: seq<nat>, list: ListHead)
    requires Holds(C, D, F, list)
    ensures InLine(C) <==> F == Identity(|C|)
  {
    var n := |C|;
    if F == Identity(n) {
      forall i | 0 <= i < n - 1 ensures C[i].next == C[i + 1] { assert C[F[i]].next == C[F[i + 1]]; }
    }
    if InLine(C) {
      forall k | 0 <= k < n ensures F[k] == k { LineOrder(C, D, F, list, k); }
    }
  }

  lemma SameCell(C: seq<ListHead>, i: nat, j: nat)
    requires Injective(C) && i < |C| && j < |C| && C[i] == C[j]
    ensures i == j
  {}

  lemma LastCell(C: seq<ListHead>, i: nat)
    requires InLine(C) && i < |C| && C[i].next == null
    ensures i == |C| - 1
  {
    if i < |C| - 1 {
      NextCell(C, i);
    }
  }

  lemma NextCell(C: seq<ListHead>, i: nat)
    requires InLine(C) && i < |C| - 1
    ensures C[i].next == C[i + 1] && C[i].next != null
  {}

  lemma {:induction false} LineOrder(C: seq<ListHead>, D: seq<ListData>, F: seq<nat>, list: ListHead, k: nat)
    requires Holds(C, D, F, list) && InLine(C) && k < |C|
    ensures F[k] == k
    decreases |C| - k
  {
    var n := |C|;
    if k == n - 1 {
      LastCell(C, F[k]);
    } else {
      LineOrder(C, D, F, list, k + 1);
      assert C[F[k]].next == C[F[k + 1]] == C[k + 1];
      assert F[k] < n - 1;
      assert C[F[k]].next == C[F[k] + 1];
      SameCell(C, F[k] + 1, k + 1);
    }
  }

  /**
   `retval` is the result of the benchmark for items that hold `K0`: the search makes `n` turns, the sort by content
   leaves the items in the order `T`, holding `K`, and the sort by index moves them by `order`. It is the score of the
   search, taken through the CRC of the first item after the sort by content and then of the first item after the
   sort by index, as often as there are cells to walk over.
   */
  ghost predicate IsScore(K0: seq<Val>, finderIdx: S16, n: nat, T: seq<nat>, K: seq<Val>, order: seq<nat>, retval: bv16)
    requires |K0| >= 3
  {
    var s := Turns(K0, Identity(|K0|), finderIdx, n);
    && FirstSort(finderIdx, K0, s.order, K, T) && InRange(T, |K|) && |T| == |K0| == |K|
    && SortsByIndex(K0, T, order)
    && retval == CrcRepeat(Regen(K0[T[order[0]]].data16),
                           CrcRepeat(K[T[0]].data16, SearchScore(s),
                                     WalkLength(K, T, LastKey(finderIdx, n))),
                           |K0| - 1)
  }

  lemma ScoreIs(K0: seq<Val>, finderIdx: S16, n: nat, T: seq<nat>, K: seq<Val>, order: seq<nat>, key: Key,
                score: bv16, walked: bv16, retval: bv16)
    requires |K0| >= 3 && SortsByIndex(K0, T, order)
    requires var s := Turns(K0, Identity(|K0|), finderIdx, n);
             score == SearchScore(s) && FirstSort(finderIdx, K0, s.order, K, T)
    requires key == LastKey(finderIdx, n)
    requires InRange(T, |K|) && |T| == |K0|
    requires walked == CrcRepeat(K[T[0]].data16, score, WalkLength(K, T, key))
    requires order != [] && order[0] < |T| && T[order[0]] < |K0|
    requires retval == CrcRepeat(Regen(K0[T[order[0]]].data16), walked, |K0| - 1)
    ensures IsScore(K0, finderIdx, n, T, K, order, retval)
  {
    FirstSortIsComplexed(finderIdx, K0, Turns(K0, Identity(|K0|), finderIdx, n).order, K, T);
    hide CrcRepeat, WalkLength, Turns, FirstSort, LastKey, SearchScore, SortsByIndex;
  }

  /**
   `core_bench_list` on the list of the cells `C` with the data `D`. Whatever is found, however often the list is
   reversed and relinked and whatever values the items evaluate to, at the end every cell has its own data, with its
   index, and every data word is rebuilt from its high byte. The links are the original ones exactly when the list was
   in the order of its indices and items of equal index have come through the search and the sort by content in order.
   */
  method CoreBenchList(list0: ListHead, res: CoreResults, finderIdx: S16, ghost C: seq<ListHead>,
                       ghost D: seq<ListData>)
    returns (retval: bv16, ghost T: seq<nat>, ghost K: seq<Val>, ghost order: seq<nat>)
    requires 3 <= |C| < 0x8000_0000 && Injective(C) && DataOf(C, D) && list0 == C[0] && InLine(C)
    modifies Cells(C), Items(D)`data16, res
    ensures forall i :: 0 <= i < |C| ==> C[i].info == old(C[i].info)
    ensures forall i :: 0 <= i < |D| ==> D[i].data16 == Regen(old(D[i].data16)) && D[i].idx == old(D[i].idx)
    ensures var n := if old(res.seed3) > 0 then old(res.seed3) else 0;
            IsScore(old(Snapshot(D)), finderIdx, n, T, K, order, retval)
    ensures InRange(order, |T|) && Permutation(Along(T, order), |C|)
    ensures Linked(C, Along(T, order))
    ensures InLine(C) <==> IndexSorted(old(Snapshot(D))) && KeepsTies(old(Snapshot(D)), T)
  {
    hide *;
    HoldsInLine(C, D);
    WhatHolds(C, D, Identity(|C|), list0);
    K := Snapshot(D);
    ghost var K0 := K;
    SnapshotValues(D, K);
    ValuesAre(D, K);
    var key: Key, list: ListHead;
    ghost var S: seq<nat>;
    ghost var n: nat := if res.seed3 > 0 then res.seed3 else 0;
    list, key, retval, S := FindLoop(list0, res.seed3, finderIdx, C, D, Identity(|C|), K);
    ValuesAre(D, K);
    ghost var score := retval;
    ghost var walked: bv16;
    list, retval, T, K, order := SortWalkSort(list, key, retval, finderIdx, res, C, D, S);
    walked := retval;
    FinalList(C, D, K0, T, order, list);
    retval := CrcWalk(list, list.next, retval, C, Along(T, order), 1);
    ScoreIs(K0, finderIdx, n, T, K, order, key, score, walked, retval);
  }

  lemma ScoreOrder(K0: seq<Val>, finderIdx: S16, n: nat, T: seq<nat>, K: seq<Val>, order: seq<nat>, retval: bv16)
    requires |K0| >= 3 && IsScore(K0, finderIdx, n, T, K, order, retval)
    ensures Permutation(T, |K0|)
    ensures finderIdx <= 0 ==> T == Turns(K0, Identity(|K0|), finderIdx, n).order
  {
    hide Turns, CrcRepeat, WalkLength, SearchScore;
  }

  /**
   When the benchmark leaves the list as it was. A data word is back exactly when its two bytes were equal. Strictly
   increasing indices bring the links back, and for no others could that be promised: one turn that looks for the
   index 0 already loses them.
   */
  method CoreBenchListRestores(list0: ListHead, res: CoreResults, finderIdx: S16, ghost C: seq<ListHead>,
                               ghost D: seq<ListData>)
    returns (retval: bv16)
    requires 3 <= |C| < 0x8000_0000 && Injective(C) && DataOf(C, D) && list0 == C[0] && InLine(C)
    modifies Cells(C), Items(D)`data16, res
    ensures forall i :: 0 <= i < |C| ==> C[i].info == old(C[i].info)
    ensures forall i :: 0 <= i < |D| ==> D[i].idx == old(D[i].idx)
    ensures forall i :: 0 <= i < |D| ==>
              (D[i].data16 == old(D[i].data16) <==> old(D[i].data16) & 0x00ff == old(D[i].data16) >> 8)
    ensures Increasing(old(Snapshot(D))) ==> InLine(C)
    ensures finderIdx == 0 && old(res.seed3) == 1 ==> (InLine(C) <==> Increasing(old(Snapshot(D))))
  {
    hide *;
    ghost var T, K, order;
    ghost var K0 := Snapshot(D);
    ghost var n: nat := if res.seed3 > 0 then res.seed3 else 0;
    forall d: bv16 ensures Regen(d) == d <==> d & 0x00ff == d >> 8 { RebuiltExactlyWhen(d); }
    HoldsInLine(C, D);
    WhatHolds(C, D, Identity(|C|), list0);
    SnapshotValues(D, K0);
    retval, T, K, order := CoreBenchList(list0, res, finderIdx, C, D);
    ScoreOrder(K0, finderIdx, n, T, K, order, retval);
    AlwaysRestoredExactlyWhen(K0);
    if Increasing(K0) {
      DistinctIndicesKeepTies(K0, T);
    }
  }

  /** What the list is when the benchmark has sorted it for the last time. */
  lemma FinalList(C: seq<ListHead>, D: seq<ListData>, K0: seq<Val>, T: seq<nat>, order: seq<nat>, list: ListHead)
    requires SortsByIndex(K0, T, order) && InRange(order, |T|) && |K0| == |C| >= 3
    requires Values(D, Rebuilt(K0)) && Holds(C, D, Along(T, order), list)
    ensures var F := Along(T, order);
            && order != [] && order[0] < |T| && T[order[0]] < |K0| && |F| == |C| == |D| && Permutation(F, |C|)
            && IsList(C, F, list) && list.next == C[F[1]]
            && list.info.data16 == Regen(K0[T[order[0]]].data16)
            && (forall i :: 0 <= i < |C| ==> C[i].info == D[i])
            && Linked(C, F)
            && (forall i :: 0 <= i < |D| ==> D[i].data16 == Regen(K0[i].data16) && D[i].idx == K0[i].idx)
            && (InLine(C) <==> IndexSorted(K0) && KeepsTies(K0, T))
  {
    var F := Along(T, order);
    IdentityExactlyWhen(K0, T, order);
    InLineExactlyWhen(C, D, F, list);
    forall i | 0 <= i < |D| ensures D[i].data16 == Regen(K0[i].data16) && D[i].idx == K0[i].idx {
      assert ValOf(D[i]) == Rebuilt(K0)[i];
    }
    assert C[F[0]].next == C[F[1]];
  }

  lemma SnapshotValues(D: seq<ListData>, K: seq<Val>)
    requires Snapshot(D) == K
    ensures |K| == |D| && forall i :: 0 <= i < |D| ==> D[i].data16 == K[i].data16 && D[i].idx == K[i].idx
  {}
}
