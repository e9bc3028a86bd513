/**
 The cache simulator: a set-associative cache over an array of tag words and a fully associative one over
 a map, behind one `access` routine, chained through miss handlers, with statistics.
 */
module CacheSim {
  import opened Numbers
  import opened Wrappers

  const VALID := 0x8000_0000_0000_0000
  const DIRTY := 0x4000_0000_0000_0000

  // ----- tag words -----

  predicate HasDirty(t: nat) { t / DIRTY % 2 == 1 }

  /** The word without its dirty flag. */
  function ClearDirty(t: nat): nat { if HasDirty(t) then t - DIRTY else t }

  /** The word with its dirty flag. */
  function SetDirty(t: nat): nat { if HasDirty(t) then t else t + DIRTY }

  /** The slot is in use and its line has to be written back. */
  predicate ValidAndDirty(t: nat) { t / VALID % 2 == 1 && HasDirty(t) }

  /** The line of a word: what is left without the two flags. */
  function LineOf(t: nat): nat { t % DIRTY }

  /** The word for a resident line. */
  function Encode(line: nat, dirty: bool): nat { line + VALID + (if dirty then DIRTY else 0) }

  /** The flags are above all line numbers, so neither disturbs the other. */
  lemma EncodeFacts(line: nat, dirty: bool)
    requires line < DIRTY
    ensures var t := Encode(line, dirty);
            && t != 0 && t < W64 && LineOf(t) == line && HasDirty(t) == dirty && ValidAndDirty(t) == dirty
            && ClearDirty(t) == Encode(line, false) && SetDirty(t) == Encode(line, true)
  {}

  lemma EncodeInjective(l: nat, m: nat)
    ensures Encode(l, false) == Encode(m, false) <==> l == m
  {}

  // ----- geometry -----

  predicate IsPowerOfTwo(n: nat) { n == 1 || (n > 0 && n % 2 == 0 && IsPowerOfTwo(n / 2)) }

  datatype Geometry = Geometry(sets: nat, ways: nat, linesz: nat) {
    /** What `init` accepts. */
    predicate Good() { sets > 0 && IsPowerOfTwo(sets) && ways > 0 && linesz >= 8 && IsPowerOfTwo(linesz) }
  }

  lemma {:induction false} PowerOfTwoExactlyWhen(n: nat)
    ensures IsPowerOfTwo(n) <==> exists k: nat :: n == Pow2(k)
  {
    Halved(0);
    assert n == 1 ==> n == Pow2(0);
    if n > 1 && n % 2 == 0 {
      PowerOfTwoExactlyWhen(n / 2);
      if k: nat :| n / 2 == Pow2(k) {
        Halved(k + 1);
        assert n == Pow2(k + 1);
      }
    }
    if k: nat :| n == Pow2(k) {
      Halved(k);
    }
  }

  lemma Halved(k: nat)
    ensures if k == 0 then Pow2(k) == 1 else Pow2(k) > 1 && Pow2(k) % 2 == 0 && Pow2(k) / 2 == Pow2(k - 1)
  {}

  /** The geometries that are accepted: powers of two, and lines of at least 2^3 bytes. */
  lemma GoodExactlyWhen(g: Geometry)
    ensures g.Good() <==> g.ways > 0 && (exists k: nat :: g.sets == Pow2(k)) && LongLines(g.linesz)
  {
    PowerOfTwoExactlyWhen(g.sets);
    PowerOfTwoExactlyWhen(g.linesz);
    if k: nat :| g.linesz == Pow2(k) {
      AtLeastEight(k);
    }
    if k: nat :| k >= 3 && g.linesz == Pow2(k) {
      AtLeastEight(k);
    }
  }

  ghost predicate LongLines(n: nat) { exists k: nat :: k >= 3 && n == Pow2(k) }

  lemma AtLeastEight(k: nat)
    ensures Pow2(k) >= 8 <==> k >= 3
  {
    if k >= 3 {
      assert Pow2(k) == 2 * Pow2(k - 1) == 4 * Pow2(k - 2) == 8 * Pow2(k - 3);
    } else {
      assert Pow2(0) == 1 && Pow2(1) == 2 && Pow2(2) == 4;
    }
  }

  /** The number of the line that holds `addr`. */
  function Line(g: Geometry, addr: nat): nat
    requires g.linesz > 0
  {
    addr / g.linesz
  }

  /** A line number an address can have. */
  /** The addresses of a line are an aligned block of `linesz` bytes. */
  lemma LineIsBlock(g: Geometry, addr: nat)
    requires g.linesz > 0
    ensures Line(g, addr) * g.linesz <= addr < Line(g, addr) * g.linesz + g.linesz
    ensures Line(g, addr) * g.linesz == addr - addr % g.linesz
  {}

  /** Two addresses are on one line exactly when they lie in one aligned block. */
  lemma SameLineExactlyWhen(g: Geometry, a: nat, b: nat)
    requires g.linesz > 0
    ensures Line(g, a) == Line(g, b) <==>
            exists k: nat :: k * g.linesz <= a < k * g.linesz + g.linesz && k * g.linesz <= b < k * g.linesz + g.linesz
  {
    LineIsBlock(g, a);
    LineIsBlock(g, b);
    if k: nat :| k * g.linesz <= a < k * g.linesz + g.linesz && k * g.linesz <= b < k * g.linesz + g.linesz {
      DivModUnique(a, g.linesz, k, a - k * g.linesz);
      DivModUnique(b, g.linesz, k, b - k * g.linesz);
    }
  }

  lemma CleanWord(line: nat)
    ensures Encode(line, false) == line + VALID
  {}

  predicate IsLine(g: Geometry, line: nat) { line < DIRTY && line * g.linesz < W64 }

  lemma LineIsLine(g: Geometry, addr: nat)
    requires g.Good() && addr < W64
    ensures IsLine(g, Line(g, addr))
  {
    hide IsPowerOfTwo;
    var l := addr / g.linesz;
    DivBounds(addr, g.linesz);
    MulMonotone(8, g.linesz, l);
    assert 8 * l <= g.linesz * l == l * g.linesz <= addr;
  }

  /** Slot `way` of set `idx` in the array of all slots. */
  function SlotAt(g: Geometry, idx: nat, way: nat): nat { idx * g.ways + way }

  lemma SlotFacts(g: Geometry, idx: nat, way: nat)
    requires idx < g.sets && way < g.ways
    ensures SlotAt(g, idx, way) < g.sets * g.ways && SlotAt(g, idx, way) / g.ways == idx
  {
    DivModUnique(SlotAt(g, idx, way), g.ways, idx, way);
    MulMonotone(idx + 1, g.sets, g.ways);
  }

  lemma SlotOfSet(g: Geometry, k: nat)
    requires g.ways > 0
    ensures k == SlotAt(g, k / g.ways, k % g.ways) && k % g.ways < g.ways
  {}

  // ----- what a cache holds -----

  /** The resident lines, each with whether it is dirty. */
  type Lines = map<nat, bool>

  /** The array of tag words holds exactly `lines`; `at` says in which slot. */
  ghost predicate ArrayHolds(g: Geometry, tags: seq<nat>, lines: Lines, at: map<nat, nat>)
    requires g.ways > 0 && g.sets > 0
  {
    && |tags| == g.sets * g.ways && at.Keys == lines.Keys
    && (forall l :: l in lines ==>
          IsLine(g, l) && at[l] < |tags| && tags[at[l]] == Encode(l, lines[l]) && at[l] / g.ways == l % g.sets)
    && (forall k :: 0 <= k < |tags| && tags[k] != 0 ==> LineOf(tags[k]) in lines && at[LineOf(tags[k])] == k)
  }

  /** The map from lines to tag words holds exactly `lines`, at most `ways` of them. */
  ghost predicate MapHolds(g: Geometry, tags: map<nat, nat>, lines: Lines) {
    && tags.Keys == lines.Keys && |tags| <= g.ways
    && forall l :: l in lines ==> IsLine(g, l) && tags[l] == Encode(l, lines[l])
  }

  /** The lines after one has been evicted. */
  ghost function Evict(lines: Lines, victim: Option<nat>): Lines {
    if victim.Some? then lines - {victim.value} else lines
  }

  lemma ArrayReplace(g: Geometry, tags: seq<nat>, lines: Lines, at: map<nat, nat>, k: nat, l: nat)
    requires g.ways > 0 && g.sets > 0 && ArrayHolds(g, tags, lines, at) && k < |tags|
    requires IsLine(g, l) && l !in lines && k / g.ways == l % g.sets
    ensures var v := if tags[k] == 0 then None else Some(LineOf(tags[k]));
            && (v.Some? ==> v.value in lines && tags[k] == Encode(v.value, lines[v.value]) && v.value != l)
            && ArrayHolds(g, tags[k := Encode(l, false)], Evict(lines, v)[l := false],
                          (if v.Some? then at - {v.value} else at)[l := k])
  {
    EncodeFacts(l, false);
    hide LineOf, Encode, IsLine;
    var v := if tags[k] == 0 then None else Some(LineOf(tags[k]));
    var lines' := Evict(lines, v)[l := false];
    var at' := (if v.Some? then at - {v.value} else at)[l := k];
    var tags' := tags[k := Encode(l, false)];
    forall m | m in lines' && m != l ensures m in lines && at'[m] == at[m] && at[m] != k {
      if at[m] == k { LineOfEncoded(g, lines, m); }
    }
    forall j | 0 <= j < |tags'| && tags'[j] != 0 ensures LineOf(tags'[j]) in lines' && at'[LineOf(tags'[j])] == j {}
  }

  lemma MapReplace(g: Geometry, tags: map<nat, nat>, lines: Lines, victim: Option<nat>, l: nat)
    requires MapHolds(g, tags, lines) && IsLine(g, l) && l !in lines && g.ways > 0
    requires victim.Some? ==> victim.value in tags
    requires victim.None? ==> |tags| != g.ways
    ensures tags.Keys == lines.Keys && |tags| == |lines|
    ensures victim.Some? ==> victim.value in lines && IsLine(g, victim.value) && victim.value != l &&
                             tags[victim.value] == Encode(victim.value, lines[victim.value])
    ensures MapHolds(g, (if victim.Some? then tags - {victim.value} else tags)[l := Encode(l, false)],
                     Evict(lines, victim)[l := false])
  {
    hide IsLine, Encode;
    MapSize(tags);
    MapSize(lines);
    KeysReplaced(tags, victim, l, Encode(l, false));
    KeysReplaced(lines, victim, l, false);
  }

  lemma MapSize<T>(m: map<nat, T>)
    ensures |m| == |m.Keys|
  {}

  lemma KeysReplaced<T>(m: map<nat, T>, victim: Option<nat>, l: nat, x: T)
    requires l !in m && (victim.Some? ==> victim.value in m)
    ensures var kept := if victim.Some? then m - {victim.value} else m;
            && kept[l := x].Keys == (if victim.Some? then m.Keys - {victim.value} else m.Keys) + {l}
            && |kept[l := x]| == if victim.Some? then |m| else |m| + 1
  {
    var kept := if victim.Some? then m - {victim.value} else m;
    assert victim.Some? ==> kept.Keys == m.Keys - {victim.value};
    MapSize(m);
    MapSize(kept);
    MapSize(kept[l := x]);
  }

  lemma LineOfEncoded(g: Geometry, lines: Lines, m: nat)
    requires m in lines && IsLine(g, m)
    ensures LineOf(Encode(m, lines[m])) == m && Encode(m, lines[m]) != 0
  {
    EncodeFacts(m, lines[m]);
  }

  lemma ArrayMark(g: Geometry, tags: seq<nat>, lines: Lines, at: map<nat, nat>, l: nat)
    requires g.ways > 0 && g.sets > 0 && ArrayHolds(g, tags, lines, at) && l in lines
    ensures ArrayHolds(g, tags[at[l] := SetDirty(tags[at[l]])], lines[l := true], at)
  {
    EncodeFacts(l, lines[l]);
    EncodeFacts(l, true);
  }

  // ----- histories -----

  datatype Request = Request(addr: nat, bytes: nat, store: bool)

  /** One access: what was asked, the line it is in, whether it hit, and which line it evicted. */
  datatype Event = Event(req: Request, line: nat, hit: bool, victim: Option<nat>, victimDirty: bool)

  datatype Stats = Stats(readAccesses: nat, readMisses: nat, bytesRead: nat,
                         writeAccesses: nat, writeMisses: nat, bytesWritten: nat, writebacks: nat)

  function Last(ev: seq<Event>): Event
    requires ev != []
  {
    ev[|ev| - 1]
  }

  function Init(ev: seq<Event>): seq<Event>
    requires ev != []
  {
    ev[..|ev| - 1]
  }

  /** The line was filled, and has not been evicted since. */
  predicate Resident(ev: seq<Event>, l: nat) {
    if ev == [] then false
    else if Last(ev).line == l then true
    else if !Last(ev).hit && Last(ev).victim == Some(l) then false
    else Resident(Init(ev), l)
  }

  /** The line was stored to since it was last filled. */
  predicate Stored(ev: seq<Event>, l: nat) {
    if ev == [] then false
    else if Last(ev).line == l then Last(ev).req.store || (Last(ev).hit && Stored(Init(ev), l))
    else Stored(Init(ev), l)
  }

  /** The statistics after one more access. */
  function Counted(s: Stats, e: Event): Stats {
    var miss := if e.hit then 0 else 1;
    var writebacks := s.writebacks + if !e.hit && e.victim.Some? && e.victimDirty then 1 else 0;
    if e.req.store then
      s.(writeAccesses := s.writeAccesses + 1, bytesWritten := s.bytesWritten + e.req.bytes,
         writeMisses := s.writeMisses + miss, writebacks := writebacks)
    else
      s.(readAccesses := s.readAccesses + 1, bytesRead := s.bytesRead + e.req.bytes,
         readMisses := s.readMisses + miss, writebacks := writebacks)
  }

  /** The statistics of a history. */
  function Tally(ev: seq<Event>): Stats {
    if ev == [] then Stats(0, 0, 0, 0, 0, 0, 0) else Counted(Tally(Init(ev)), Last(ev))
  }

  /** The number of stores that missed or hit a clean line. */
  function Dirtied(ev: seq<Event>): nat {
    if ev == [] then 0
    else Dirtied(Init(ev)) + if Last(ev).req.store && !(Last(ev).hit && Stored(Init(ev), Last(ev).line)) then 1 else 0
  }

  /** What an access sends to the next level. */
  function Sent(linesz: nat, e: Event): seq<Request> {
    if e.hit then []
    else (if e.victim.Some? && e.victimDirty then [Request(e.victim.value * linesz, linesz, true)] else [])
         + [Request(e.line * linesz, linesz, false)]
  }

  /** The last request reads the aligned block of `linesz` bytes that holds `addr`. */
  ghost predicate EndsInFill(rs: seq<Request>, linesz: nat, addr: nat) {
    rs != [] && linesz > 0 &&
    var r := rs[|rs| - 1];
    !r.store && r.bytes == linesz && r.addr % linesz == 0 && r.addr <= addr < r.addr + linesz
  }

  lemma FillIsLast(g: Geometry, rs: seq<Request>, e: Event)
    requires g.linesz > 0 && !e.hit && e.line == Line(g, e.req.addr)
    ensures EndsInFill(rs + Sent(g.linesz, e), g.linesz, e.req.addr)
  {
    LineIsBlock(g, e.req.addr);
    DivModUnique(e.line * g.linesz, g.linesz, e.line, 0);
    assert (rs + Sent(g.linesz, e))[|rs + Sent(g.linesz, e)| - 1] == Request(e.line * g.linesz, g.linesz, false);
  }

  function Traffic(linesz: nat, ev: seq<Event>): seq<Request> {
    if ev == [] then [] else Traffic(linesz, Init(ev)) + Sent(linesz, Last(ev))
  }

  function Requests(ev: seq<Event>): seq<Request> {
    if ev == [] then [] else Requests(Init(ev)) + [Last(ev).req]
  }

  /** The number of reads, or of writes, among requests. */
  function Count(rs: seq<Request>, store: bool): nat {
    if rs == [] then 0 else Count(rs[..|rs| - 1], store) + if rs[|rs| - 1].store == store then 1 else 0
  }

  lemma {:induction false} CountConcat(rs: seq<Request>, ts: seq<Request>, store: bool)
    ensures Count(rs + ts, store) == Count(rs, store) + Count(ts, store)
  {
    if ts == [] {
      assert rs + ts == rs;
    } else {
      assert (rs + ts)[..|rs + ts| - 1] == rs + ts[..|ts| - 1];
      CountConcat(rs, ts[..|ts| - 1], store);
    }
  }

  lemma {:induction false} TrafficCounts(linesz: nat, ev: seq<Event>)
    ensures Count(Traffic(linesz, ev), false) == Tally(ev).readMisses + Tally(ev).writeMisses
    ensures Count(Traffic(linesz, ev), true) == Tally(ev).writebacks
  {
    if ev != [] {
      TrafficCounts(linesz, Init(ev));
      var sent := Sent(linesz, Last(ev));
      CountConcat(Traffic(linesz, Init(ev)), sent, false);
      CountConcat(Traffic(linesz, Init(ev)), sent, true);
      SentCounts(linesz, Last(ev));
    }
  }

  lemma CountOne(r: Request)
    ensures Count([r], r.store) == 1 && Count([r], !r.store) == 0
  {
    assert [r][..0] == [];
  }

  lemma SentCounts(linesz: nat, e: Event)
    ensures Count(Sent(linesz, e), false) == if e.hit then 0 else 1
    ensures Count(Sent(linesz, e), true) == if !e.hit && e.victim.Some? && e.victimDirty then 1 else 0
  {
    var fill := Request(e.line * linesz, linesz, false);
    var wb := Request(if e.victim.Some? then e.victim.value * linesz else 0, linesz, true);
    CountOne(fill);
    CountOne(wb);
    CountConcat([wb], [fill], false);
    CountConcat([wb], [fill], true);
    assert [] + [fill] == [fill];
  }

  lemma {:induction false} RequestCounts(ev: seq<Event>)
    ensures Count(Requests(ev), false) == Tally(ev).readAccesses && Count(Requests(ev), true) == Tally(ev).writeAccesses
  {
    if ev != [] {
      RequestCounts(Init(ev));
      assert Requests(ev)[..|Requests(ev)| - 1] == Requests(Init(ev));
    }
  }

  /** A level that gets the traffic of the level above it and nothing else reads as often as that misses, and is
      written as often as that writes back. */
  lemma LevelsBalance(linesz: nat, above: seq<Event>, below: seq<Event>)
    requires Requests(below) == Traffic(linesz, above)
    ensures Tally(below).readAccesses == Tally(above).readMisses + Tally(above).writeMisses
    ensures Tally(below).writeAccesses == Tally(above).writebacks
  {
    TrafficCounts(linesz, above);
    RequestCounts(below);
  }

  // ----- contents and history -----

  /** The resident lines after an access. */
  ghost function After(lines: Lines, e: Event): Lines {
    if e.hit then (if e.req.store then lines[e.line := true] else lines)
    else Evict(lines, e.victim)[e.line := e.req.store]
  }

  /** The event is one that can happen to `lines`. */
  ghost predicate Fits(lines: Lines, e: Event) {
    && e.hit == (e.line in lines)
    && (!e.hit && e.victim.Some? ==> e.victim.value in lines && e.victimDirty == lines[e.victim.value])
  }

  /** A line is resident when the history says so, and dirty exactly when it was stored to since its fill. */
  ghost predicate Recorded(lines: Lines, ev: seq<Event>) {
    && (forall l: nat :: l in lines <==> Resident(ev, l))
    && (forall l: nat :: l in lines ==> lines[l] == Stored(ev, l))
  }

  ghost function DirtyLines(lines: Lines): set<nat> { set l | l in lines && lines[l] }

  /** Nothing is lost: every line that became dirty is still dirty here, or was written back. */
  ghost predicate Conserved(lines: Lines, ev: seq<Event>) {
    Tally(ev).writebacks + |DirtyLines(lines)| == Dirtied(ev)
  }

  lemma RecordedStep(lines: Lines, ev: seq<Event>, e: Event)
    requires Recorded(lines, ev) && Fits(lines, e)
    ensures Recorded(After(lines, e), ev + [e])
  {
    assert Init(ev + [e]) == ev && Last(ev + [e]) == e;
    forall l: nat
      ensures l in After(lines, e) <==> Resident(ev + [e], l)
      ensures l in After(lines, e) ==> After(lines, e)[l] == Stored(ev + [e], l)
    {
      assert l in lines <==> Resident(ev, l);
    }
  }

  lemma ConservedStep(lines: Lines, ev: seq<Event>, e: Event)
    requires Recorded(lines, ev) && Conserved(lines, ev) && Fits(lines, e)
    ensures Conserved(After(lines, e), ev + [e])
  {
    hide Resident, Stored, Recorded, After;
    assert Init(ev + [e]) == ev && Last(ev + [e]) == e;
    DirtyAfter(lines, ev, e);
  }

  /** How one access changes the number of dirty lines. */
  lemma DirtyAfter(lines: Lines, ev: seq<Event>, e: Event)
    requires Recorded(lines, ev) && Fits(lines, e)
    ensures |DirtyLines(After(lines, e))|
            == |DirtyLines(lines)|
               + (if e.req.store && !(e.hit && Stored(ev, e.line)) then 1 else 0)
               - (if !e.hit && e.victim.Some? && e.victimDirty then 1 else 0)
  {
    hide Resident, Stored, DirtyLines;
    if e.hit {
      assert lines[e.line] == Stored(ev, e.line);
      if e.req.store { DirtyMark(lines, e.line); }
    } else {
      if e.victim.Some? { DirtyEvict(lines, e.victim.value); }
      DirtyFill(Evict(lines, e.victim), e.line, e.req.store);
    }
  }

  lemma DirtyMark(lines: Lines, l: nat)
    requires l in lines
    ensures |DirtyLines(lines[l := true])| == |DirtyLines(lines)| + if lines[l] then 0 else 1
  {
    assert DirtyLines(lines[l := true]) == DirtyLines(lines) + {l};
  }

  lemma DirtyEvict(lines: Lines, v: nat)
    requires v in lines
    ensures |DirtyLines(lines - {v})| == |DirtyLines(lines)| - if lines[v] then 1 else 0
  {
    assert DirtyLines(lines - {v}) == DirtyLines(lines) - {v};
  }

  lemma DirtyFill(lines: Lines, l: nat, dirty: bool)
    requires l !in lines
    ensures |DirtyLines(lines[l := dirty])| == |DirtyLines(lines)| + if dirty then 1 else 0
  {
    assert DirtyLines(lines[l := dirty]) == if dirty then DirtyLines(lines) + {l} else DirtyLines(lines);
  }

  lemma {:induction false} DirtiedByWrites(ev: seq<Event>)
    ensures Dirtied(ev) <= Tally(ev).writeAccesses
  {
    if ev != [] { DirtiedByWrites(Init(ev)); }
  }

  /** A line is written back at most once for each store. */
  lemma WritebacksAreBounded(lines: Lines, ev: seq<Event>)
    requires Conserved(lines, ev)
    ensures Tally(ev).writebacks <= Tally(ev).writeAccesses
  {
    DirtiedByWrites(ev);
  }

  // ----- the simulator -----

  /** The register shifted down by one; a one that falls out is added at the bits 31, 30, 28 and 0. */
  function NextLfsr(reg: bv32): bv32 {
    if reg % 2 == 1 then (reg / 2) ^ (0x8000_0000 + 0x4000_0000 + 0x1000_0000 + 1) else reg / 2
  }

  /** The bits of the next number. */
  lemma LfsrBits(reg: bv32)
    ensures (NextLfsr(reg) & 0x8000_0000 != 0) == (reg & 1 != 0)
    ensures (NextLfsr(reg) & 0x4000_0000 != 0) == ((reg & 0x8000_0000 != 0) != (reg & 1 != 0))
    ensures (NextLfsr(reg) & 0x1000_0000 != 0) == ((reg & 0x2000_0000 != 0) != (reg & 1 != 0))
    ensures (NextLfsr(reg) & 1 != 0) == ((reg & 2 != 0) != (reg & 1 != 0))
    ensures NextLfsr(reg) & 0x2fff_fffe == (reg >> 1) & 0x2fff_fffe
  {}

  /** No number has two predecessors, so that the generator runs in cycles. */
  lemma LfsrIsPermutation(reg: bv32, other: bv32)
    requires NextLfsr(reg) == NextLfsr(other)
    ensures reg == other
  {}

  /** The generator never gets stuck at 0. */
  lemma LfsrNeverZero(reg: bv32)
    requires reg != 0
    ensures NextLfsr(reg) != 0
  {}

  /** What the choice of a victim depends on: the way in which each line of an array is, and the random register. */
  datatype Choice = Choice(slots: map<nat, nat>, reg: bv32)

  /**
   A miss of `line` evicts `victim`. In an array that is the line in the way picked by the next number of the
   generator, in the set of `line`, which takes its place. In the fully associative cache a line goes only when the
   cache is full: the one whose rank among the resident lines is picked.
   */
  ghost predicate Chosen(g: Geometry, full: bool, lines: Lines, c: Choice, line: nat, victim: Option<nat>, c': Choice)
    requires g.sets > 0 && g.ways > 0
  {
    if full then
      && (victim.Some? <==> |lines| == g.ways)
      && c'.reg == (if victim.Some? then NextLfsr(c.reg) else c.reg)
      && (victim.Some? ==> IsNth(lines.Keys, victim.value, c'.reg as nat % g.ways))
    else
      var k := SlotAt(g, line % g.sets, c'.reg as nat % g.ways);
      && c'.reg == NextLfsr(c.reg)
      && c'.slots == (if victim.Some? then c.slots - {victim.value} else c.slots)[line := k]
      && forall m :: m in lines ==> m in c.slots && (c.slots[m] == k <==> victim == Some(m))
  }

  lemma ChoiceNeverZero(g: Geometry, full: bool, lines: Lines, c: Choice, line: nat, victim: Option<nat>, c': Choice)
    requires g.sets > 0 && g.ways > 0 && Chosen(g, full, lines, c, line, victim, c') && c.reg != 0
    ensures c'.reg != 0
  {
    hide NextLfsr;
    LfsrNeverZero(c.reg);
  }

  lemma SlotIsChosen(g: Geometry, tags: seq<nat>, lines: Lines, c: Choice, line: nat, victim: Option<nat>, reg: bv32)
    requires g.sets > 0 && g.ways > 0 && ArrayHolds(g, tags, lines, c.slots) && reg == NextLfsr(c.reg)
    requires var k := SlotAt(g, line % g.sets, reg as nat % g.ways);
             k < |tags| && victim == if tags[k] == 0 then None else Some(LineOf(tags[k]))
    ensures var k := SlotAt(g, line % g.sets, reg as nat % g.ways);
            Chosen(g, false, lines, c, line, victim,
                   Choice((if victim.Some? then c.slots - {victim.value} else c.slots)[line := k], reg))
  {
    hide NextLfsr, SlotAt;
    var k := SlotAt(g, line % g.sets, reg as nat % g.ways);
    forall m | m in lines ensures m in c.slots && (c.slots[m] == k <==> victim == Some(m)) {
      EncodeFacts(m, lines[m]);
    }
  }

  /** The books of a cache: contents, statistics and history agree. */
  ghost predicate Books(lines: Lines, stats: Stats, ev: seq<Event>) {
    Recorded(lines, ev) && stats == Tally(ev) && Conserved(lines, ev)
  }

  lemma NothingHeld(g: Geometry)
    requires g.Good()
    ensures MapHolds(g, map[], map[])
    ensures forall tags: seq<nat> :: |tags| == g.sets * g.ways && (forall k :: 0 <= k < |tags| ==> tags[k] == 0) ==>
              ArrayHolds(g, tags, map[], map[])
  {}

  lemma NothingBooked()
    ensures Books(map[], Stats(0, 0, 0, 0, 0, 0, 0), [])
  {}

  lemma BooksStep(lines: Lines, ev: seq<Event>, e: Event)
    requires Recorded(lines, ev) && Conserved(lines, ev) && Fits(lines, e)
    ensures Books(After(lines, e), Tally(ev + [e]), ev + [e])
    ensures Init(ev + [e]) == ev && Last(ev + [e]) == e
  {
    RecordedStep(lines, ev, e);
    ConservedStep(lines, ev, e);
  }

  class CacheSim {
    const g: Geometry
    const fullyAssociative: bool
    const tags: array<nat>
    var tagMap: map<nat, nat>
    var lfsr: bv32
    var readAccesses: nat
    var readMisses: nat
    var bytesRead: nat
    var writeAccesses: nat
    var writeMisses: nat
    var bytesWritten: nat
    var writebacks: nat
    var missHandler: CacheSim?
    ghost var lines: Lines
    ghost var at: map<nat, nat>
    ghost var events: seq<Event>
    ghost var Repr: set<object>

    ghost predicate Holds()
      reads this`tagMap, this`lines, this`at, tags
    {
      && g.Good() && (fullyAssociative ==> g.sets == 1)
      && if fullyAssociative then MapHolds(g, tagMap, lines) else ArrayHolds(g, tags[..], lines, at)
    }

    function Statistics(): Stats
      reads this
    {
      Stats(readAccesses, readMisses, bytesRead, writeAccesses, writeMisses, bytesWritten, writebacks)
    }

    ghost function State(): Choice
      reads this`at, this`lfsr
    {
      Choice(at, lfsr)
    }

    /** The cache and everything below it is in order; no cache is below itself; the generator is not stuck at 0. */
    ghost predicate Valid()
      reads this, Repr
      decreases Repr
    {
      && this in Repr && tags in Repr
      && (missHandler != null ==>
            && missHandler in Repr && missHandler.Repr <= Repr && this !in missHandler.Repr && tags !in missHandler.Repr
            && missHandler.Valid())
      && Holds() && Books(lines, Statistics(), events) && lfsr != 0
    }

    constructor (g: Geometry, fullyAssociative: bool)
      requires g.Good() && (fullyAssociative ==> g.sets == 1)
      ensures Valid() && fresh(Repr) && missHandler == null
      ensures this.g == g && this.fullyAssociative == fullyAssociative && lines == map[] && events == [] && lfsr == 1
    {
      hide MapHolds, ArrayHolds, Books;
      NothingHeld(g);
      NothingBooked();
      this.g, this.fullyAssociative := g, fullyAssociative;
      tags := new nat[g.sets * g.ways](_ => 0);
      tagMap := map[];
      lfsr := 1;
      readAccesses, readMisses, bytesRead := 0, 0, 0;
      writeAccesses, writeMisses, bytesWritten, writebacks := 0, 0, 0, 0;
      missHandler := null;
      lines, at, events := map[], map[], [];
      Repr := {this, tags};
    }

    /** `set_miss_handler` */
    method SetMissHandler(mh: CacheSim)
      requires Valid() && mh.Valid() && this !in mh.Repr && tags !in mh.Repr
      modifies this`missHandler, this`Repr
      ensures Valid() && missHandler == mh && Repr == old(Repr) + mh.Repr
    {
      missHandler := mh;
      Repr := Repr + mh.Repr;
    }

    /** `check_tag`: the slot of the line in the array, or its key in the map. */
    method CheckTag(addr: nat) returns (r: Option<nat>)
      requires Holds() && addr < W64
      ensures r.Some? <==> Line(g, addr) in lines
      ensures r.Some? ==> r.value == if fullyAssociative then Line(g, addr) else at[Line(g, addr)]
    {
      LineIsLine(g, addr);
      var line := addr / g.linesz;
      if fullyAssociative {
        return if line in tagMap then Some(line) else None;
      }
      var idx := line % g.sets;
      var tag := line + VALID;
      var i := 0;
      while i < g.ways
        invariant 0 <= i <= g.ways
        invariant forall j :: 0 <= j < i ==> !(line in lines && at[line] == SlotAt(g, idx, j))
      {
        SlotFacts(g, idx, i);
        var k := SlotAt(g, idx, i);
        SlotTag(g, tags[..], lines, at, k, line);
        if tag == ClearDirty(tags[k]) {
          return Some(k);
        }
        i := i + 1;
      }
      if line in lines {
        SlotOfSet(g, at[line]);
      }
      return None;
    }

    /** A store sets the dirty flag of the line it hits. */
    method MarkDirty(ghost line: nat, way: nat)
      requires Holds() && line in lines && way == if fullyAssociative then line else at[line]
      modifies this`tagMap, this`lines, tags
      ensures Holds() && lines == old(lines)[line := true]
    {
      if fullyAssociative {
        EncodeFacts(line, lines[line]);
        tagMap := tagMap[way := SetDirty(tagMap[way])];
      } else {
        ArrayMark(g, tags[..], lines, at, line);
        ghost var ts := tags[..];
        tags[way] := SetDirty(tags[way]);
        assert tags[..] == ts[way := SetDirty(ts[way])];
      }
      lines := lines[line := true];
    }

    /** `lfsr_t::next` */
    method Next() returns (random: bv32)
      modifies this`lfsr
      ensures random == lfsr == NextLfsr(old(lfsr))
    {
      lfsr := (lfsr >> 1) ^ ((0 - (lfsr & 1)) & 0xd000_0001);
      random := lfsr;
    }

    /** `fa_cache_sim_t::victimize` */
    method VictimizeInMap(addr: nat) returns (word: nat, ghost victim: Option<nat>)
      requires fullyAssociative && Holds() && addr < W64 && Line(g, addr) !in lines
      modifies this`tagMap, this`lines, this`lfsr
      ensures Holds() && Victimized(old(lines), addr, word, victim)
      ensures Chosen(g, true, old(lines), old(State()), Line(g, addr), victim, State())
    {
      hide IsPowerOfTwo, Encode, IsLine, NextLfsr, MapHolds, Evict;
      LineIsLine(g, addr);
      CleanWord(addr / g.linesz);
      var line := addr / g.linesz;
      word, victim := 0, None;
      if |tagMap| == g.ways {
        var random := Next();
        var k := NthKey(tagMap, random as nat % g.ways);
        MapReplace(g, tagMap, lines, Some(k), line);
        word := tagMap[k];
        victim := Some(k);
        tagMap := tagMap - {k};
      } else {
        MapReplace(g, tagMap, lines, None, line);
      }
      tagMap := tagMap[line := line + VALID];
      lines := Evict(lines, victim)[line := false];
    }

    /** `cache_sim_t::victimize` */
    method VictimizeInArray(addr: nat) returns (word: nat, ghost victim: Option<nat>)
      requires !fullyAssociative && Holds() && addr < W64 && Line(g, addr) !in lines
      modifies this`lines, this`at, this`lfsr, tags
      ensures Holds() && Victimized(old(lines), addr, word, victim)
      ensures victim.Some? ==> victim.value % g.sets == Line(g, addr) % g.sets
      ensures Chosen(g, false, old(lines), old(State()), Line(g, addr), victim, State())
    {
      hide IsPowerOfTwo, LineOf, NextLfsr, Chosen;
      LineIsLine(g, addr);
      var line := addr / g.linesz;
      var idx := line % g.sets;
      var random := Next();
      var way := random as nat % g.ways;
      SlotFacts(g, idx, way);
      var k := SlotAt(g, idx, way);
      ArrayReplace(g, tags[..], lines, at, k, line);
      ghost var ts := tags[..];
      word := tags[k];
      victim := if word == 0 then None else Some(LineOf(word));
      tags[k] := line + VALID;
      assert tags[..] == ts[k := Encode(line, false)];
      SlotIsChosen(g, ts, lines, Choice(at, old(lfsr)), line, victim, lfsr);
      at := (if victim.Some? then at - {victim.value} else at)[line := k];
      lines := Evict(lines, victim)[line := false];
    }

    /** What `victimize` does: the line of `addr` is there now, clean, and `word` is what it displaced. */
    ghost predicate Victimized(before: Lines, addr: nat, word: nat, victim: Option<nat>)
      requires g.linesz > 0
      reads this
    {
      && lines == Evict(before, victim)[Line(g, addr) := false]
      && (victim.Some? ==>
            victim.value in before && IsLine(g, victim.value) && word == Encode(victim.value, before[victim.value]))
      && (victim.None? ==> word == 0)
    }

    /** The next level is in order, and apart from this one. */
    ghost predicate Below()
      reads this, Repr
    {
      && this in Repr && tags in Repr
      && (missHandler != null ==>
            && missHandler in Repr && missHandler.Repr <= Repr && this !in missHandler.Repr && tags !in missHandler.Repr
            && missHandler.Valid())
    }

    /** The next level, if there is one, gets an access of its own. */
    method Forward(addr: nat, bytes: nat, store: bool)
      requires Below() && addr < W64
      modifies if missHandler == null then {} else missHandler.Repr
      ensures Below() && (missHandler != null ==> missHandler.Repr == old(missHandler.Repr))
      ensures missHandler != null ==>
                Requests(missHandler.events) == old(Requests(missHandler.events)) + [Request(addr, bytes, store)]
      decreases Repr, 0
    {
      if missHandler != null {
        missHandler.Access(addr, bytes, store);
      }
    }

    /** Write back the evicted line if it was dirty, and fetch the new one. */
    method SendMiss(addr: nat, word: nat, ghost before: Lines, ghost victim: Option<nat>)
      requires Below() && g.Good() && addr < W64
      requires victim.None? ==> word == 0
      requires victim.Some? ==>
                 victim.value in before && IsLine(g, victim.value) && word == Encode(victim.value, before[victim.value])
      modifies this`writebacks
      modifies if missHandler == null then {} else missHandler.Repr
      ensures Below()
      ensures writebacks == old(writebacks) + if IsDirty(before, victim) then 1 else 0
      ensures missHandler != null ==>
                Requests(missHandler.events) == old(Requests(missHandler.events))
                  + MissTraffic(g.linesz, Line(g, addr), victim, IsDirty(before, victim))
      decreases Repr, 1
    {
      hide IsPowerOfTwo, Holds, Books, Requests, Line, LineOf, ValidAndDirty, IsDirty, MissTraffic;
      LineIsLine(g, addr);
      WordOfVictim(g, before, victim, word);
      if ValidAndDirty(word) {
        var dirtyAddr := LineOf(word) * g.linesz;
        Forward(dirtyAddr, g.linesz, true);
        writebacks := writebacks + 1;
      }
      LineIsBlock(g, addr);
      Forward(addr - addr % g.linesz, g.linesz, false);
      if missHandler != null {
        TrafficInOrder(old(Requests(missHandler.events)), g.linesz, Line(g, addr), victim, IsDirty(before, victim));
      }
    }

    method Victimize(addr: nat) returns (word: nat, ghost victim: Option<nat>)
      requires Holds() && addr < W64 && Line(g, addr) !in lines
      modifies this`tagMap, this`lines, this`at, this`lfsr, tags
      ensures Holds() && Victimized(old(lines), addr, word, victim)
      ensures Chosen(g, fullyAssociative, old(lines), old(State()), Line(g, addr), victim, State())
    {
      hide Chosen;
      if fullyAssociative {
        word, victim := VictimizeInMap(addr);
      } else {
        word, victim := VictimizeInArray(addr);
      }
    }

    /** Only the number of write-backs may differ. */
    ghost predicate SameButWritebacks(s: Stats)
      reads this
    {
      Statistics() == s.(writebacks := writebacks)
    }

    /** The part of `access` that deals with a miss. */
    method Miss(addr: nat, store: bool) returns (ghost victim: Option<nat>)
      requires Below() && Holds() && addr < W64 && Line(g, addr) !in lines
      modifies this`tagMap, this`lines, this`at, this`lfsr, this`writebacks, tags
      modifies if missHandler == null then {} else missHandler.Repr
      ensures Below() && Holds() && SameButWritebacks(old(Statistics()))
      ensures Chosen(g, fullyAssociative, old(lines), old(State()), Line(g, addr), victim, State())
      ensures victim.Some? ==> victim.value in old(lines)
      ensures lines == Evict(old(lines), victim)[Line(g, addr) := store]
      ensures writebacks == old(writebacks) + if IsDirty(old(lines), victim) then 1 else 0
      ensures missHandler != null ==>
                Requests(missHandler.events) == old(Requests(missHandler.events))
                  + MissTraffic(g.linesz, Line(g, addr), victim, IsDirty(old(lines), victim))
      decreases Repr, 2
    {
      hide IsPowerOfTwo, ArrayHolds, MapHolds, Books, Requests, Line, IsDirty, MissTraffic, Chosen, State, Evict, Valid;
      ghost var before := lines;
      var word: nat;
      word, victim := Victimize(addr);
      SendMiss(addr, word, before, victim);
      if store {
        var way := CheckTag(addr);
        NoteStore(Line(g, addr), way.value, true);
      }
    }

    lemma GoodLine(addr: nat)
      requires Holds()
      ensures g.linesz > 0 && g.sets > 0 && g.ways > 0
    {}

    method CountAccess(bytes: nat, store: bool)
      requires Below() && Holds()
      modifies this`readAccesses, this`bytesRead, this`writeAccesses, this`bytesWritten
      ensures Below() && Holds()
      ensures store ==> writeAccesses == old(writeAccesses) + 1 && bytesWritten == old(bytesWritten) + bytes
      ensures store ==> readAccesses == old(readAccesses) && bytesRead == old(bytesRead)
      ensures !store ==> readAccesses == old(readAccesses) + 1 && bytesRead == old(bytesRead) + bytes
      ensures !store ==> writeAccesses == old(writeAccesses) && bytesWritten == old(bytesWritten)
    {
      hide Holds;
      if store { writeAccesses := writeAccesses + 1; } else { readAccesses := readAccesses + 1; }
      if store { bytesWritten := bytesWritten + bytes; } else { bytesRead := bytesRead + bytes; }
    }

    method CountMiss(store: bool)
      requires Below() && Holds()
      modifies this`readMisses, this`writeMisses
      ensures Below() && Holds()
      ensures writeMisses == old(writeMisses) + if store then 1 else 0
      ensures readMisses == old(readMisses) + if store then 0 else 1
    {
      hide Holds;
      if store { writeMisses := writeMisses + 1; } else { readMisses := readMisses + 1; }
    }

    method NoteStore(ghost line: nat, way: nat, store: bool)
      requires Below() && Holds() && line in lines && way == if fullyAssociative then line else at[line]
      modifies this`tagMap, this`lines, tags
      ensures Below() && Holds() && lines == if store then old(lines)[line := true] else old(lines)
    {
      hide Holds;
      if store {
        MarkDirty(line, way);
      }
    }

    /** The body of `access`, without the history. */
    method Perform(addr: nat, bytes: nat, store: bool) returns (ghost e: Event)
      requires Below() && Holds() && addr < W64
      modifies this`tagMap, this`lines, this`at, this`lfsr, tags
      modifies this`readAccesses, this`bytesRead, this`writeAccesses, this`bytesWritten
      modifies this`readMisses, this`writeMisses, this`writebacks
      modifies if missHandler == null then {} else missHandler.Repr
      ensures Below() && Holds()
      ensures e.req == Request(addr, bytes, store) && e.line == Line(g, addr) && e.hit == (e.line in old(lines))
      ensures (e.victim.Some? ==> e.victim.value in old(lines)) && e.victimDirty == IsDirty(old(lines), e.victim)
      ensures e.hit ==> lines == if store then old(lines)[e.line := true] else old(lines)
      ensures !e.hit ==> lines == Evict(old(lines), e.victim)[e.line := store]
      ensures e.hit ==> State() == old(State())
      ensures !e.hit ==> Chosen(g, fullyAssociative, old(lines), old(State()), e.line, e.victim, State())
      ensures Statistics() == Counted(old(Statistics()), e)
      ensures missHandler != null ==>
                Requests(missHandler.events) == old(Requests(missHandler.events))
                  + if e.hit then [] else MissTraffic(g.linesz, e.line, e.victim, e.victimDirty)
      decreases Repr, 3
    {
      hide IsPowerOfTwo, Holds, Below, Line, Requests, MissTraffic, Evict, IsDirty, Chosen, State, Valid, Books;
      GoodLine(addr);
      NoVictim(lines);
      ghost var before := lines;
      e := Event(Request(addr, bytes, store), Line(g, addr), Line(g, addr) in lines, None, false);
      CountAccess(bytes, store);
      var hitWay := CheckTag(addr);
      if hitWay.Some? {
        NoteStore(Line(g, addr), hitWay.value, store);
        return;
      }
      CountMiss(store);
      ghost var victim := Miss(addr, store);
      e := e.(victim := victim, victimDirty := IsDirty(before, victim));
      VictimWasThere(before, victim);
    }

    /**
     `access`. The history gets one event, which says truly whether the line was there and which line it
     evicted; the contents change accordingly; and the next level gets exactly the write-back and the fill
     of a miss, with the base addresses of the evicted line and of the missing one.
     */
    method Access(addr: nat, bytes: nat, store: bool)
      requires Valid() && addr < W64
      modifies Repr
      ensures Valid() && Repr == old(Repr) && missHandler == old(missHandler)
      ensures events != [] && Init(events) == old(events) && Last(events).req == Request(addr, bytes, store)
      ensures Requests(events) == old(Requests(events)) + [Request(addr, bytes, store)]
      ensures Last(events).line == Line(g, addr)
      ensures Fits(old(lines), Last(events)) && lines == After(old(lines), Last(events))
      ensures Last(events).hit ==> State() == old(State())
      ensures !Last(events).hit ==>
                Chosen(g, fullyAssociative, old(lines), old(State()), Line(g, addr), Last(events).victim, State())
      ensures missHandler != null ==>
                Requests(missHandler.events) == old(Requests(missHandler.events)) + Sent(g.linesz, Last(events))
      ensures missHandler != null && !Last(events).hit ==> EndsInFill(Requests(missHandler.events), g.linesz, addr)
      decreases Repr, 4
    {
      hide Holds, Books, Line, After, Fits, Requests, MissTraffic, Sent, Evict, Init, Last, IsDirty, Counted,
           Chosen, EndsInFill;
      ghost var before, ev, stats, state := lines, events, Statistics(), State();
      GoodLine(addr);
      ghost var e := Perform(addr, bytes, store);
      BookEntry(g.linesz, before, lines, ev, e, stats);
      if !e.hit { ChoiceNeverZero(g, fullyAssociative, before, state, e.line, e.victim, State()); }
      events := ev + [e];
      if missHandler != null && !e.hit {
        FillIsLast(g, old(Requests(missHandler.events)), e);
      }
    }

    /** The next level has had the traffic of this one since the start, and nothing else. */
    ghost predicate Fed()
      reads this, missHandler
    {
      missHandler != null && Requests(missHandler.events) == Traffic(g.linesz, events)
    }

    /** Whatever has been accessed: a line is written back at most once for each store, and the next level was read
        for each miss and written for each write-back. */
    lemma StatisticsBalance()
      requires Valid()
      ensures writebacks + |DirtyLines(lines)| == Dirtied(events) <= writeAccesses
      ensures Fed() ==> missHandler.readAccesses == readMisses + writeMisses && missHandler.writeAccesses == writebacks
    {
      DirtiedByWrites(events);
      if Fed() { LevelsBalance(g.linesz, events, missHandler.events); }
    }

    /** The accesses of a trace, one after the other. */
    method Replay(trace: seq<Request>)
      requires Valid() && forall r :: r in trace ==> r.addr < W64
      modifies Repr
      ensures Valid() && Repr == old(Repr) && missHandler == old(missHandler)
      ensures Requests(events) == old(Requests(events)) + trace
      ensures old(Fed()) ==> Fed()
    {
      hide Books, Holds, Requests, Traffic, Sent;
      var i := 0;
      assert Requests(events) + trace[..0] == Requests(events);
      while i < |trace|
        invariant 0 <= i <= |trace| && Valid() && Repr == old(Repr) && missHandler == old(missHandler)
        invariant Requests(events) == old(Requests(events)) + trace[..i]
        invariant old(Fed()) ==> Fed()
      {
        ghost var ev := events;
        Access(trace[i].addr, trace[i].bytes, trace[i].store);
        TrafficStep(g.linesz, events);
        assert trace[..i + 1] == trace[..i] + [trace[i]];
        i := i + 1;
      }
      assert trace[..|trace|] == trace;
    }
  }

  lemma TrafficStep(linesz: nat, ev: seq<Event>)
    requires ev != []
    ensures Traffic(linesz, ev) == Traffic(linesz, Init(ev)) + Sent(linesz, Last(ev))
  {}

  /** The evicted line was dirty. */
  ghost predicate IsDirty(lines: Lines, victim: Option<nat>) {
    victim.Some? && victim.value in lines && lines[victim.value]
  }

  lemma NoVictim(lines: Lines)
    ensures !IsDirty(lines, None)
  {}

  lemma VictimWasThere(lines: Lines, victim: Option<nat>)
    ensures IsDirty(lines, victim) ==> victim.Some?
  {}

  /** What a miss sends to the next level: perhaps the evicted line, then a request for the new one. */
  ghost function MissTraffic(linesz: nat, line: nat, victim: Option<nat>, dirty: bool): seq<Request> {
    (if victim.Some? && dirty then [Request(victim.value * linesz, linesz, true)] else [])
    + [Request(line * linesz, linesz, false)]
  }

  lemma TrafficInOrder(rs: seq<Request>, linesz: nat, line: nat, victim: Option<nat>, dirty: bool)
    ensures rs + MissTraffic(linesz, line, victim, dirty)
            == (if victim.Some? && dirty then rs + [Request(victim.value * linesz, linesz, true)] else rs)
               + [Request(line * linesz, linesz, false)]
  {}

  lemma WordOfVictim(g: Geometry, before: Lines, victim: Option<nat>, word: nat)
    requires victim.None? ==> word == 0
    requires victim.Some? ==>
               victim.value in before && IsLine(g, victim.value) && word == Encode(victim.value, before[victim.value])
    ensures ValidAndDirty(word) == IsDirty(before, victim)
    ensures ValidAndDirty(word) ==> victim.Some? && LineOf(word) == victim.value && IsLine(g, victim.value)
  {
    if victim.Some? { EncodeFacts(victim.value, before[victim.value]); }
  }

  lemma EventHappened(linesz: nat, before: Lines, lines: Lines, e: Event)
    requires e.hit == (e.line in before) && (e.victim.Some? ==> e.victim.value in before)
    requires e.victimDirty == IsDirty(before, e.victim)
    requires e.hit ==> lines == if e.req.store then before[e.line := true] else before
    requires !e.hit ==> lines == Evict(before, e.victim)[e.line := e.req.store]
    ensures Fits(before, e) && lines == After(before, e)
    ensures Sent(linesz, e) == if e.hit then [] else MissTraffic(linesz, e.line, e.victim, e.victimDirty)
  {}

  /** Entering an access in the books. */
  lemma BookEntry(linesz: nat, before: Lines, lines: Lines, ev: seq<Event>, e: Event, stats: Stats)
    requires Books(before, stats, ev)
    requires e.hit == (e.line in before) && (e.victim.Some? ==> e.victim.value in before)
    requires e.victimDirty == IsDirty(before, e.victim)
    requires e.hit ==> lines == if e.req.store then before[e.line := true] else before
    requires !e.hit ==> lines == Evict(before, e.victim)[e.line := e.req.store]
    ensures Books(lines, Counted(stats, e), ev + [e])
    ensures ev + [e] != [] && Init(ev + [e]) == ev && Last(ev + [e]) == e
    ensures Requests(ev + [e]) == Requests(ev) + [e.req]
    ensures Fits(before, e) && lines == After(before, e)
    ensures Sent(linesz, e) == if e.hit then [] else MissTraffic(linesz, e.line, e.victim, e.victimDirty)
  {
    EventHappened(linesz, before, lines, e);
    BooksStep(before, ev, e);
  }

  /** `k` is one of the keys, and `n` of them are smaller. */
  ghost predicate IsNth(keys: set<nat>, k: nat, n: nat) { k in keys && |set x | x in keys && x < k| == n }

  /** The key `n` places behind the first one, in the order of the map. */
  method NthKey(m: map<nat, nat>, n: nat) returns (k: nat)
    requires n < |m|
    ensures IsNth(m.Keys, k, n)
  {
    var rest := m.Keys;
    k := Least(rest);
    for i := 0 to n
      invariant rest <= m.Keys && |rest| == |m| - i && k in rest && forall x :: x in rest ==> k <= x
      invariant forall x :: x in m.Keys && x !in rest ==> x < k
    {
      rest := rest - {k};
      assert |rest| > 0;
      k := Least(rest);
    }
    assert (set x | x in m.Keys && x < k) == m.Keys - rest;
  }

  method Least(s: set<nat>) returns (k: nat)
    requires |s| > 0
    ensures k in s && forall x :: x in s ==> k <= x
  {
    k :| k in s;
    var rest := s - {k};
    while rest != {}
      invariant rest <= s && k in s && forall x :: x in s ==> x in rest || k <= x
      decreases rest
    {
      var x :| x in rest;
      if x < k {
        k := x;
      }
      rest := rest - {x};
    }
  }

  /** Without its dirty bit, a slot's word is that of the line exactly when the line is there. */
  lemma SlotTag(g: Geometry, tags: seq<nat>, lines: Lines, at: map<nat, nat>, k: nat, line: nat)
    requires g.Good() && ArrayHolds(g, tags, lines, at) && k < |tags| && line < DIRTY
    ensures Encode(line, false) == ClearDirty(tags[k]) <==> line in lines && at[line] == k
  {
    EncodeFacts(line, false);
    if tags[k] != 0 {
      var l := LineOf(tags[k]);
      EncodeFacts(l, lines[l]);
      EncodeInjective(line, l);
    }
  }
}
