/**
 The second page walker, in gdbserver: `collect_translation_info_op_t` fetches one page table entry per
 debug interrupt into `pte_cache`, and `gdbserver_t::translate` then walks that cache.
 */
module GdbTranslate {
  import opened Numbers
  import opened PageRights
  import opened PageWalk

  type Cache = map<nat, nat>

  /** Where a walk over the cache gets: an entry it does not have, a leaf, or past the last level. */
  datatype Probe = Need(pteAddr: nat, at: nat) | Found(level: nat, ppn: nat) | NoLeaf

  function ProbeFrom(vm: Vm, cache: Cache, vaddr: nat, page: nat, i: nat): (r: Probe)
    requires i <= Levels(vm)
    ensures r.Found? ==> i <= r.level < Levels(vm)
    ensures r.Need? ==> i <= r.at < Levels(vm) && r.pteAddr !in cache
    decreases Levels(vm) - i
  {
    if i == Levels(vm) then NoLeaf
    else
      var a := PteAddr(vm, page, Index(vm, vaddr, i));
      if a !in cache then Need(a, i)
      else
        var pte := cache[a];
        if IsTable(pte) then ProbeFrom(vm, cache, vaddr, Ppn(pte) % W52, i + 1) else Found(i, Ppn(pte))
  }

  function ProbeAll(vm: Vm, cache: Cache, vaddr: nat, sptbr: nat): Probe { ProbeFrom(vm, cache, vaddr, sptbr % W52, 0) }

  /** The cache holds what the memory of the target holds. */
  ghost predicate Faithful(vm: Vm, cache: Cache, mem: Memory) {
    forall a :: a in cache && IsPte(mem, vm, a) ==> cache[a] == Pte(mem, vm, a)
  }

  /** Where the walk over memory ends, the walk over the cache does too, or it lacks an entry on the way there. */
  lemma {:induction false} ProbeFollowsWalk(c: Csrs, mem: Memory, cache: Cache, vaddr: nat, access: Access,
                                            supervisor: bool, page: nat, i: nat)
    requires i <= Levels(c.vm) && Faithful(c.vm, cache, mem)
    requires FindLeaf(c, mem, vaddr, access, supervisor, page, i).Some?
    ensures var l := FindLeaf(c, mem, vaddr, access, supervisor, page, i).value;
            match ProbeFrom(c.vm, cache, vaddr, page, i)
            case Need(a, k) => k <= l.level && IsPte(mem, c.vm, a)
            case Found(k, ppn) => k == l.level && ppn == l.ppn
            case NoLeaf => false
    decreases Levels(c.vm) - i
  {
    hide Permits, Pte, Ppn, IsTable, Index;
    var a := PteAddr(c.vm, page, Index(c.vm, vaddr, i));
    var pte := Pte(mem, c.vm, a);
    if a in cache && IsTable(pte) {
      ProbeFollowsWalk(c, mem, cache, vaddr, access, supervisor, Ppn(pte) % W52, i + 1);
    }
  }

  /** Once the missing entry is there, the walk over the cache gets further. */
  lemma {:induction false} ProbeAdvances(vm: Vm, cache: Cache, vaddr: nat, page: nat, i: nat, pte: nat)
    requires i <= Levels(vm) && ProbeFrom(vm, cache, vaddr, page, i).Need?
    ensures var Need(a, k) := ProbeFrom(vm, cache, vaddr, page, i);
            var p := ProbeFrom(vm, cache[a := pte], vaddr, page, i);
            p.Need? ==> p.at > k
    decreases Levels(vm) - i
  {
    hide Ppn, IsTable, Index;
    var a := PteAddr(vm, page, Index(vm, vaddr, i));
    if a in cache && IsTable(cache[a]) {
      ProbeAdvances(vm, cache, vaddr, Ppn(cache[a]) % W52, i + 1, pte);
    }
  }

  lemma ProbeStep(vm: Vm, cache: Cache, vaddr: nat, page: nat, i: nat)
    requires i <= Levels(vm)
    ensures i == Levels(vm) ==> ProbeFrom(vm, cache, vaddr, page, i) == NoLeaf
    ensures i < Levels(vm) ==>
              var a := PteAddr(vm, page, Index(vm, vaddr, i));
              ProbeFrom(vm, cache, vaddr, page, i) ==
              if a !in cache then Need(a, i)
              else if IsTable(cache[a]) then ProbeFrom(vm, cache, vaddr, Ppn(cache[a]) % W52, i + 1)
              else Found(i, Ppn(cache[a]))
  {
    hide IsTable, Ppn, Index, PteAddr;
  }

  // ----- the server -----

  /** What both loops begin with for a mode: the last value is `1 << ptshift`. */
  method ModeParameters(vm: Vm) returns (levels: nat, entries: nat, ptesize: nat, span: nat)
    ensures levels == Levels(vm) > 0 && entries == Entries(vm) > 0 && ptesize == PteSize(vm) && span == Span(vm, 0)
  {
    match vm
    case Sv32 => levels, entries, ptesize, span := 2, 1024, 4, 0x400;
    case Sv39 => levels, entries, ptesize, span := 3, 512, 8, 0x4_0000;
    case Sv48 => levels, entries, ptesize, span := 4, 512, 8, 0x800_0000;
  }

  /** What the operation is waiting for. */
  datatype Step = Start | ReadSptbr | ReadPte

  /** What `translate` does: return an address, die for a missing entry, or return -1. */
  datatype Translated = Address(paddr: nat) | Die | MinusOne

  class Gdbserver {
    var sptbr: nat
    var sptbrValid: bool
    var pteCache: Cache

    constructor ()
      ensures !sptbrValid && pteCache == map[] && sptbr == 0
    {
      sptbr, sptbrValid, pteCache := 0, false, map[];
    }

    /** `gdbserver_t::translate` for a paged mode. */
    method Translate(vm: Vm, vaddr: nat) returns (r: Translated)
      ensures r == match ProbeAll(vm, pteCache, vaddr, sptbr)
                   case Need(_, _) => Die
                   case Found(level, ppn) =>
                     Address((PageOf(vm, Leaf(0, level, ppn), vaddr) * PGSIZE + vaddr % PGSIZE) % W64)
                   case NoLeaf => MinusOne
    {
      hide Ppn, IsTable, PteAddr, Index, Or, Span, Entries, PteSize, ProbeFrom, PageOf;
      var levels, entries, ptesize, span := ModeParameters(vm);
      var base: nat := sptbr % W52;
      var i := 0;
      while i < levels
        invariant 0 <= i <= levels && (i < levels ==> span == Span(vm, i))
        invariant ProbeFrom(vm, pteCache, vaddr, base, i) == ProbeAll(vm, pteCache, vaddr, sptbr)
      {
        ProbeStep(vm, pteCache, vaddr, base, i);
        PlaceIs(vm, base, vaddr, i);
        var idx := vaddr / (PGSIZE * span) % entries;
        var pteAddr := base * PGSIZE + idx * ptesize;
        if pteAddr !in pteCache {
          return Die;
        }
        var pte := pteCache[pteAddr];
        TableIs(pte);
        var ppn := pte / 0x400;
        if pte % 16 == 1 {
          base := ppn % W52;
        } else {
          PageOfIs(vm, Leaf(0, i, ppn), vaddr);
          var vpn := vaddr / PGSIZE;
          var paddr := Or(ppn, vpn % span) % W52 * PGSIZE;
          return Address((paddr + vaddr % PGSIZE) % W64);
        }
        if i + 1 < levels { SpanIs(vm, i); }
        i := i + 1;
        span := span / entries;
      }
      ProbeStep(vm, pteCache, vaddr, base, i);
      return MinusOne;
    }
  }

  /** `collect_translation_info_op_t`, for a paged mode. */
  class CollectTranslationInfo {
    const gs: Gdbserver
    const vm: Vm
    const vaddr: nat
    var state: Step
    var pteAddr: nat
    var currentStep: nat

    constructor (gs: Gdbserver, vm: Vm, vaddr: nat)
      ensures this.gs == gs && this.vm == vm && this.vaddr == vaddr && state == Start && currentStep == 0
    {
      this.gs, this.vm, this.vaddr := gs, vm, vaddr;
      state, pteAddr, currentStep := Start, 0, 0;
    }

    /** The second half of a step: look for the first entry on the way that is missing. */
    method NextEntry() returns (finished: bool)
      modifies this
      ensures currentStep == old(currentStep)
      ensures var p := ProbeAll(vm, gs.pteCache, vaddr, gs.sptbr);
              finished == !p.Need? && (p.Need? ==> state == ReadPte && pteAddr == p.pteAddr)
    {
      hide Ppn, IsTable, PteAddr, Index, Span, Entries, PteSize, ProbeFrom;
      var levels, entries, ptesize, span := ModeParameters(vm);
      var base: nat := gs.sptbr % W52;
      var i := 0;
      while i < levels
        modifies this
        invariant 0 <= i <= levels && (i < levels ==> span == Span(vm, i))
        invariant currentStep == old(currentStep)
        invariant ProbeFrom(vm, gs.pteCache, vaddr, base, i) == ProbeAll(vm, gs.pteCache, vaddr, gs.sptbr)
      {
        ProbeStep(vm, gs.pteCache, vaddr, base, i);
        PlaceIs(vm, base, vaddr, i);
        var idx := vaddr / (PGSIZE * span) % entries;
        pteAddr := base * PGSIZE + idx * ptesize;
        if pteAddr !in gs.pteCache {
          state := ReadPte;
          return false;
        }
        var pte := gs.pteCache[pteAddr];
        TableIs(pte);
        var ppn := pte / 0x400;
        if pte % 16 == 1 {
          base := ppn % W52;
        } else {
          return true;
        }
        if i + 1 < levels { SpanIs(vm, i); }
        i := i + 1;
        span := span / entries;
      }
      ProbeStep(vm, gs.pteCache, vaddr, base, i);
      return true;
    }

    /**
     `operation_t::step`: take what the target has left in the debug RAM (`read`), and ask for the next
     thing the walk needs. True when there is nothing left to ask for.
     */
    method Step(read: nat) returns (finished: bool)
      modifies this, gs
      ensures currentStep == old(currentStep) + 1
      ensures gs.sptbr == (if old(state) == ReadSptbr then read else old(gs.sptbr))
      ensures gs.sptbrValid == (old(state) == ReadSptbr || old(gs.sptbrValid))
      ensures gs.pteCache == if old(state) == ReadPte then old(gs.pteCache)[old(pteAddr) := read] else old(gs.pteCache)
      ensures !gs.sptbrValid ==> !finished && state == ReadSptbr
      ensures gs.sptbrValid ==>
                var p := ProbeAll(vm, gs.pteCache, vaddr, gs.sptbr);
                finished == !p.Need? && (p.Need? ==> state == ReadPte && pteAddr == p.pteAddr)
    {
      hide ProbeFrom, ProbeAll;
      currentStep := currentStep + 1;
      match state {
        case Start =>
        case ReadSptbr =>
          gs.sptbr := read;
          gs.sptbrValid := true;
        case ReadPte =>
          gs.pteCache := gs.pteCache[pteAddr := read];
      }
      if !gs.sptbrValid {
        state := ReadSptbr;
        return false;
      }
      finished := NextEntry();
    }
  }

  /** What the target puts in the debug RAM for a request: the root register, or the word at an address. */
  function TargetRead(c: Csrs, mem: Memory, state: Step, pteAddr: nat): nat {
    match state
    case Start => 0
    case ReadSptbr => c.sptbr
    case ReadPte => if IsPte(mem, c.vm, pteAddr) then Pte(mem, c.vm, pteAddr) else 0
  }

  predicate IsNeed(p: Probe, pteAddr: nat, at: int) { p.Need? && p.pteAddr == pteAddr && p.at == at }

  /**
   The two walkers agree. With the target halted, whenever the walk of the MMU succeeds for `vaddr`, the
   operation is finished after at most `levels + 2` steps, and `translate` then returns the physical
   address that the MMU computes: for all modes, superpages included.
   */
  method CollectAndTranslate(gs: Gdbserver, c: Csrs, mem: Memory, vaddr: nat, ghost access: Access,
                             ghost supervisor: bool)
    returns (r: Translated, steps: nat)
    requires Walk(c, mem, vaddr, access, supervisor).Some?
    requires Faithful(c.vm, gs.pteCache, mem) && (gs.sptbrValid ==> gs.sptbr == c.sptbr)
    modifies gs
    ensures steps <= Levels(c.vm) + 2
    ensures Faithful(c.vm, gs.pteCache, mem) && gs.sptbrValid && gs.sptbr == c.sptbr
    ensures r == Address(WithOffset(PageOf(c.vm, Walk(c, mem, vaddr, access, supervisor).value, vaddr), vaddr))
  {
    hide Walk, FindLeaf, ProbeFrom, PageOf, Pte, Or, WithOffset;
    var op := new CollectTranslationInfo(gs, c.vm, vaddr);
    var finished := false;
    ghost var reached: int := -1;
    while !finished
      invariant op.gs == gs && op.vm == c.vm && op.vaddr == vaddr
      invariant Faithful(c.vm, gs.pteCache, mem)
      invariant gs.sptbrValid ==> gs.sptbr == c.sptbr
      invariant !finished && op.state == Start ==> op.currentStep == 0 && reached == -1
      invariant !finished && op.state == ReadSptbr ==> op.currentStep == 1 && reached == -1
      invariant -1 <= reached < Levels(c.vm) as int
      invariant !finished && op.state == ReadPte ==> gs.sptbrValid && op.currentStep <= reached + 2
      invariant !finished && op.state == ReadPte ==>
                  IsNeed(ProbeAll(c.vm, gs.pteCache, vaddr, gs.sptbr), op.pteAddr, reached)
      invariant finished ==> gs.sptbrValid && !ProbeAll(c.vm, gs.pteCache, vaddr, gs.sptbr).Need?
      invariant finished ==> op.currentStep <= Levels(c.vm) + 2
      decreases !finished, Levels(c.vm) + 3 - op.currentStep
    {
      ghost var cache := gs.pteCache;
      ghost var before := op.state;
      if op.state == ReadPte {
        ProbeIsOnTheWay(c, mem, cache, vaddr, access, supervisor);
        ProbeAdvances(c.vm, cache, vaddr, c.sptbr % W52, 0, Pte(mem, c.vm, op.pteAddr));
      }
      finished := op.Step(TargetRead(c, mem, op.state, op.pteAddr));
      if op.state == ReadPte && !finished {
        reached := ProbeAll(c.vm, gs.pteCache, vaddr, gs.sptbr).at;
      }
    }
    steps := op.currentStep;
    r := gs.Translate(c.vm, vaddr);
    ProbeIsOnTheWay(c, mem, gs.pteCache, vaddr, access, supervisor);
  }

  lemma ProbeIsOnTheWay(c: Csrs, mem: Memory, cache: Cache, vaddr: nat, access: Access, supervisor: bool)
    requires Faithful(c.vm, cache, mem) && Walk(c, mem, vaddr, access, supervisor).Some?
    ensures match ProbeAll(c.vm, cache, vaddr, c.sptbr)
            case Need(a, k) => IsPte(mem, c.vm, a)
            case Found(k, ppn) =>
              (PageOf(c.vm, Leaf(0, k, ppn), vaddr) * PGSIZE + vaddr % PGSIZE) % W64
              == WithOffset(PageOf(c.vm, Walk(c, mem, vaddr, access, supervisor).value, vaddr), vaddr)
            case NoLeaf => false
  {
    hide FindLeaf, ProbeFrom, Pte, Or, WithOffset;
    ProbeFollowsWalk(c, mem, cache, vaddr, access, supervisor, c.sptbr % W52, 0);
    var l := Walk(c, mem, vaddr, access, supervisor).value;
    var page := PageOf(c.vm, l, vaddr);
    assert PageOf(c.vm, Leaf(0, l.level, l.ppn), vaddr) == page;
    OffsetIsAdded(page, vaddr);
  }
}
