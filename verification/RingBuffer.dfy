/**
 `circular_buffer_t` of the gdb server: a ring of `capacity` cells that holds up to `capacity - 1` elements.
 */
module RingBuffer {
  import opened Numbers
  import opened Sequences

  // ----- the ring as a value -----

  /** The elements between two positions, oldest first. */
  function Ring<T>(d: seq<T>, start: nat, end: nat): seq<T>
    requires start < |d| && end < |d|
  {
    if start <= end then d[start..end] else d[start..] + d[..end]
  }

  function Gap(capacity: nat, start: nat, end: nat): int {
    if end >= start then if start == 0 then capacity - end - 1 else capacity - end
    else start - end - 1
  }

  lemma RingExtend<T>(d: seq<T>, start: nat, end: nat, n: nat)
    requires start < |d| && end < |d| && n <= Gap(|d|, start, end)
    ensures var end' := if end + n == |d| then 0 else end + n;
            && end + n <= |d| && Ring(d, start, end') == Ring(d, start, end) + d[end..end + n]
            && Gap(|d|, start, end') ==
               (if n < Gap(|d|, start, end) then Gap(|d|, start, end) else |d| - 1 - |Ring(d, start, end)|) - n
  {
    if start > end {
      assert d[..end + n] == d[..end] + d[end..end + n];
      assert d[start..] + d[..end + n] == d[start..] + d[..end] + d[end..end + n];
    } else if end + n == |d| {
      assert d[start..] + d[..0] == d[start..end] + d[end..end + n];
    } else {
      assert d[start..end + n] == d[start..end] + d[end..end + n];
    }
  }

  lemma RingDrop<T>(d: seq<T>, start: nat, end: nat, n: nat)
    requires start < |d| && end < |d| && n <= |Ring(d, start, end)|
    ensures var start' := (start + n) % |d|;
            Ring(d, start', end) == Ring(d, start, end)[n..]
  {
    WrapOnce(start + n, |d|);
  }

  lemma RingFilled<T>(d: seq<T>, src: seq<T>, start: nat, end: nat)
    requires start < |d| && end < |d| && |src| <= Gap(|d|, start, end)
    ensures Ring(d[..end] + src + d[end + |src|..], start, end) == Ring(d, start, end)
  {}

  function Wrapped(x: nat, n: nat): nat
    requires n > 0
  {
    x % n
  }

  lemma WrapOnce(x: nat, n: nat)
    requires n > 0
    ensures x < 2 * n ==> x % n == if x < n then x else x - n
  {
    if n <= x < 2 * n {
      DivModUnique(x, n, 1, x - n);
    }
  }

  /** The cells that can be filled without wrapping around, after `n` more have been filled. */
  function Left(gap: nat, room: nat, n: nat): int {
    if n < gap then gap - n else room - n
  }

  /** What `append` writes for `src` when `first` cells can be filled without wrapping around. */
  function Stored<T>(first: nat, src: seq<T>): (s: seq<T>)
    ensures |s| == |src|
  {
    if |src| <= first then src else src[..first] + src[..|src| - first]
  }

  lemma StoredWhole<T>(first: nat, room: nat, src: seq<T>)
    requires |src| <= first
    ensures Stored(first, src) == src && Left(first, room, |src|) == (if |src| < first then first else room) - |src|
  {}

  lemma StoredInTwo<T>(c: seq<T>, first: nat, room: nat, src: seq<T>)
    requires first < |src|
    ensures c + src[..first] + src[..|src| - first] == c + Stored(first, src)
    ensures Left(first, room, |src|) == room - |src|
    ensures var gap := Left(first, room, first);
            gap == room - first && (|src| - first < gap ==> Left(gap, gap, |src| - first) == gap - (|src| - first))
  {}

  lemma WrapTwice(e: nat, m: nat, n: nat, capacity: nat)
    requires 0 < capacity && e < capacity && e + m <= capacity && n < capacity
    ensures Wrapped(Wrapped(e + m, capacity) + n, capacity) == Wrapped(e + m + n, capacity)
  {
    WrapOnce(e + m, capacity);
    WrapOnce((e + m) % capacity + n, capacity);
    WrapOnce(e + m + n, capacity);
  }

  /** From `first` on, each element repeats the one `first` places before it. */
  ghost predicate Repeats<T>(src: seq<T>, first: nat) {
    forall i :: first <= i < |src| ==> src[i] == src[i - first]
  }

  /** What is written is `src` exactly when `src` fits, or repeats itself after the first piece. */
  lemma StoredIsExactlyWhen<T>(first: nat, src: seq<T>)
    ensures Stored(first, src) == src <==> Repeats(src, first)
  {
    if first < |src| {
      var r := Stored(first, src);
      forall i | 0 <= i < |src| ensures r[i] == if i < first then src[i] else src[i - first] {}
      if r == src {
        forall i | first <= i < |src| ensures src[i] == src[i - first] {
          assert r[i] == src[i];
        }
      }
    }
  }

  lemma SplitAt<T>(s: seq<T>, c: seq<T>, n: nat)
    requires n <= |c|
    ensures s + c[..n] + c[n..] == s + c
  {}

  method Memcpy<T>(to: array<T>, at: nat, src: seq<T>)
    requires at + |src| <= to.Length
    modifies to
    ensures to[..] == old(to[..at]) + src + old(to[at + |src|..])
  {
    ghost var was := to[..];
    for i := 0 to |src|
      invariant to[..] == was[..at] + src[..i] + was[at + i..]
    {
      OneMore(was, at, src, i);
      to[at + i] := src[i];
    }
  }

  class CircularBuffer<T(0)> {
    var data: array<T>
    var start: nat
    var end: nat
    var capacity: nat

    /** Twice the capacity is a 32-bit number, so that no index computation wraps around. */
    ghost predicate Valid()
      reads this, data
    {
      data.Length == capacity && 0 < capacity <= 0x8000_0000 && start < capacity && end < capacity
    }

    /** The elements, oldest first. */
    ghost function Contents(): (s: seq<T>)
      requires Valid()
      reads this, data
    {
      Ring(data[..], start, end)
    }

    constructor (capacity: nat)
      requires 0 < capacity <= 0x8000_0000
      ensures Valid() && fresh(data) && Contents() == [] && this.capacity == capacity && start == end == 0
    {
      data := new T[capacity];
      start, end := 0, 0;
      this.capacity := capacity;
    }

    function Size(): (n: nat)
      requires Valid()
      reads this, data
      ensures n == |Contents()| < capacity
    {
      if end >= start then end - start else end + capacity - start
    }

    predicate Empty()
      requires Valid()
      reads this, data
      ensures Empty() <==> Contents() == []
    {
      start == end
    }

    predicate Full()
      requires Valid()
      reads this, data
      ensures Full() <==> |Contents()| == capacity - 1
    {
      WrapOnce(end + 1, capacity);
      (end + 1) % capacity == start
    }

    /** `operator[]`, which is also `entry`. */
    function At(i: nat): (x: T)
      requires Valid()
      reads this, data
      ensures i < |Contents()| ==> x == Contents()[i]
    {
      WrapOnce(start + i, capacity);
      data[(start + i) % capacity]
    }

    /** The cells that can be filled without wrapping around. There is one unless the buffer is full. */
    function ContiguousEmptySize(): (n: nat)
      requires Valid()
      reads this, data
      ensures end + n <= capacity && n <= capacity - 1 - |Contents()|
      ensures n == 0 <==> |Contents()| == capacity - 1
    {
      Gap(capacity, start, end)
    }

    /** The elements that can be read without wrapping around: a beginning of the contents. */
    function ContiguousDataSize(): (n: nat)
      requires Valid()
      reads this, data
      ensures n <= |Contents()| && start + n <= capacity == data.Length && data[start..start + n] == Contents()[..n]
      ensures n == 0 <==> Contents() == []
    {
      if end >= start then end - start else capacity - start
    }

    /** The cells just behind the contents become contents. */
    method DataAdded(bytes: nat)
      requires Valid() && bytes <= ContiguousEmptySize()
      modifies this`end
      ensures Valid()
      ensures Contents() == old(Contents()) + old(data[end..end + bytes])
      ensures end == Wrapped(old(end) + bytes, capacity)
      ensures ContiguousEmptySize() == Left(old(ContiguousEmptySize()), old(capacity - 1 - |Contents()|), bytes)
    {
      hide Ring, Gap;
      RingExtend(data[..], start, end, bytes);
      WrapOnce(end + bytes, capacity);
      end := end + bytes;
      assert end <= capacity;
      if end == capacity {
        end := 0;
      }
    }

    method Consume(bytes: nat)
      requires Valid() && bytes <= |Contents()|
      modifies this`start
      ensures Valid() && Contents() == old(Contents())[bytes..] && start == Wrapped(old(start) + bytes, capacity)
    {
      RingDrop(data[..], start, end, bytes);
      start := (start + bytes) % capacity;
    }

    method Reset()
      requires Valid()
      modifies this`start, this`end
      ensures Valid() && Contents() == []
    {
      start, end := 0, 0;
    }

    /** Fills cells behind the contents. */
    method Copy(src: seq<T>)
      requires Valid() && |src| <= ContiguousEmptySize()
      modifies data
      ensures Valid() && Contents() == old(Contents()) && data[end..end + |src|] == src
      ensures ContiguousEmptySize() == old(ContiguousEmptySize())
    {
      hide Ring, Gap;
      RingFilled(data[..], src, start, end);
      Memcpy(data, end, src);
    }

    /**
     `append`; `ok` is false where its assertion stops the program. What does not fit in one piece is copied from
     the beginning of `src` again. `room` is what the buffer can take in all, `first` what it can take in one piece.
     */
    method Append(src: seq<T>) returns (ok: bool)
      requires Valid()
      modifies this`end, data
      ensures Valid()
      ensures var room, first := old(capacity - 1 - |Contents()|), old(ContiguousEmptySize());
              && (ok <==> |src| <= first || |src| < room)
              && (ok ==>
                    && Contents() == old(Contents()) + Stored(first, src)
                    && ContiguousEmptySize() == Left(first, room, |src|)
                    && end == Wrapped(old(end) + |src|, capacity))
    {
      hide Ring, Gap, Contents, ContiguousEmptySize, Stored, Left, Wrapped;
      var first := ContiguousEmptySize();
      ghost var room := capacity - 1 - |Contents()|;
      if |src| <= first {
        StoredWhole(first, room, src);
        assert src[..|src|] == src;
      } else {
        StoredInTwo(Contents(), first, room, src);
      }
      var copy := if |src| <= first then |src| else first;
      Copy(src[..copy]);
      DataAdded(copy);
      var count := |src| - copy;
      if count > 0 {
        if count >= ContiguousEmptySize() {
          return false;
        }
        WrapTwice(old(end), copy, count, capacity);
        Copy(src[..count]);
        DataAdded(count);
      }
      return true;
    }

    /** `gdbserver_t::write`: the client accepts up to `accepts[k]` elements at the k-th attempt, or nothing more. */
    method Drain(accepts: seq<nat>) returns (sent: seq<T>)
      requires Valid()
      modifies this`start
      ensures Valid() && sent + Contents() == old(Contents())
      ensures |accepts| >= old(|Contents()|) && 0 !in accepts ==> Contents() == []
    {
      hide *;
      sent := [];
      var k := 0;
      while !Empty() && k < |accepts| && accepts[k] > 0
        invariant Valid() && k <= |accepts| && k <= |sent| && sent + Contents() == old(Contents())
      {
        var count := ContiguousDataSize();
        var bytes := if accepts[k] < count then accepts[k] else count;
        SplitAt(sent, Contents(), bytes);
        assert data[start..start + bytes] == Contents()[..bytes];
        sent := sent + data[start..start + bytes];
        Consume(bytes);
        k := k + 1;
      }
    }
  }

  lemma OneAndTwo(s: seq<nat>)
    requires s == [1, 2]
    ensures Stored(1, s) == [1, 1]
  {
    assert s[..1] == [1];
  }

  /** A buffer of six cells: after 7, 7, 7, 7, 7, of which three have been read, 1, 2 is sent as 1, 1. */
  method GarbledAppend() returns (sent: seq<nat>)
    ensures sent == [7, 7] + [1, 1]
  {
    hide Ring, Stored, CircularBuffer.Contents;
    var b := new CircularBuffer<nat>(6);
    ghost var empty := b.Contents();
    var sevens := [7, 7, 7, 7, 7];
    assert b.ContiguousEmptySize() == 5;
    StoredWhole(5, 5, sevens);
    var ok := b.Append(sevens);
    assert b.Contents() == empty + sevens == sevens;
    b.Consume(3);
    assert b.start == 3 && b.end == 5;
    assert b.Contents() == [7, 7] && b.ContiguousEmptySize() == 1;
    ok := b.Append([1, 2]);
    OneAndTwo([1, 2]);
    sent := b.Drain([1, 1, 1, 1]);
  }
}
