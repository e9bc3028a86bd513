/**
 `mmu_t`: loads, stores and fetches through the TLB, and how far a hit does what `translate` would. Three ghost
 fields follow it. `earned` holds the translations that have succeeded since the last flush; every valid tag is one
 of them. `stale` is set when translations change without a flush (a store to a page table, a write of a register
 that translation depends on) and while only one of fetches and data accesses goes through the page tables; as long
 as it is not set, every hit leads where `translate` would. `cleared` is set when a bit A or D that a walk has set
 behind a valid tag is no longer set; as long as it is not, every hit leaves the memory that `translate` would.
 */
module Mmu {
  import opened Numbers
  import opened PageRights
  import opened PageWalk
  import opened Tlb
  import opened Wrappers

  /** What `trigger_match` and the timing of the trigger say about an access. */
  datatype Trigger = NoMatch | Match(after: bool)

  datatype Outcome<T> = Done(value: T) | Misaligned | AccessFault | TriggerMatched

  /** A pointer into host memory, or to the buffer that a fetch from a device uses. */
  datatype Pointer = Host(index: int) | FetchTemp

  predicate IsSize(len: nat) { len in {1, 2, 4, 8} }

  function WriteBytes(mem: Memory, h: int, bytes: seq<Byte>): (m: Memory)
    requires 0 <= h <= h + |bytes| <= |mem|
    ensures |m| == |mem|
  {
    mem[..h] + bytes + mem[h + |bytes|..]
  }

  lemma AccessFits(size: nat, h: int, addr: nat, len: nat)
    requires IsSize(len) && addr % len == 0 && size % PGSIZE == 0 && HostPage(h - addr % PGSIZE, size)
    ensures 0 <= h && h + len <= size
  {
    var o := addr % PGSIZE;
    assert o % len == 0 by { OffsetAligned(addr, len); }
    assert o + len <= PGSIZE;
    PageFits(h - o, size);
  }

  lemma OffsetAligned(addr: nat, len: nat)
    requires IsSize(len) && addr % len == 0
    ensures addr % PGSIZE % len == 0 && addr % PGSIZE + len <= PGSIZE
  {
    var n := PGSIZE / len;
    assert n * len == PGSIZE;
    var k := addr / len;
    assert addr == k * len;
    OffsetOfMultiple(addr, len, n, k);
  }

  lemma OffsetOfMultiple(addr: nat, len: nat, n: nat, k: nat)
    requires len > 0 && n > 0 && n * len == PGSIZE && addr == k * len
    ensures addr % PGSIZE % len == 0 && addr % PGSIZE + len <= PGSIZE
  {
    var q, r := k / n, k % n;
    assert k * len == (q * n + r) * len == q * (n * len) + r * len;
    assert r * len + len <= n * len by { assert (r + 1) * len <= n * len; }
    DivModUnique(addr, PGSIZE, q, r * len);
    DivModUnique(r * len, len, r, 0);
  }

  lemma PageFits(p: int, size: nat)
    requires HostPage(p, size) && size % PGSIZE == 0
    ensures p + PGSIZE <= size
  {}

  lemma InMemHost(mem: Memory, p: Proc, addr: Reg, access: Access)
    requires InMem(mem, Translate(p, mem, addr, access))
    ensures HostPage(Translate(p, mem, addr, access).value - DRAM_BASE - addr % PGSIZE, |mem|)
  {
    hide Translate;
    TranslateWithinPage(p, mem, addr, access);
    PageStartInMem(mem, Translate(p, mem, addr, access).value, addr);
    HostOfPage(mem, Translate(p, mem, addr, access).value - addr % PGSIZE);
  }

  lemma HostOfPage(mem: Memory, u: nat)
    requires IsMem(mem, u) && u % PGSIZE == 0
    ensures HostPage(u - DRAM_BASE, |mem|)
  {}

  /** The tag at an index becomes invalid if it is that of another page; the trigger flag does not matter. */
  method DropOtherPage(tags: array<Reg>, idx: nat, vpn: nat)
    requires idx < tags.Length
    modifies tags
    ensures tags[..] == old(tags[..])[idx := Kept(old(tags[idx]), vpn)]
  {
    if PageIn(tags[idx]) != vpn {
      tags[idx] := INVALID;
    }
  }

  // ----- the steps of the walk -----

  lemma CanonicalIs(vm: Vm, addr: nat)
    ensures vm.Sv32? ==> (Canonical(vm, addr) <==> addr / 0x8000_0000 % 2 in {0, 1})
    ensures vm.Sv39? ==> (Canonical(vm, addr) <==> addr / 0x40_0000_0000 % 0x400_0000 in {0, 0x3ff_ffff})
    ensures vm.Sv48? ==> (Canonical(vm, addr) <==> addr / 0x8000_0000_0000 % 0x2_0000 in {0, 0x1_ffff})
  {}

  lemma LeafStep(c: Csrs, mem: Memory, addr: nat, access: Access, supervisor: bool, page: nat, i: nat)
    requires i <= Levels(c.vm)
    ensures i == Levels(c.vm) ==> FindLeaf(c, mem, addr, access, supervisor, page, i) == None
    ensures i < Levels(c.vm) ==>
              var a := PteAddr(c.vm, page, Index(c.vm, addr, i));
              FindLeaf(c, mem, addr, access, supervisor, page, i) ==
              if !IsMem(mem, a) then None
              else
                var pte := Pte(mem, c.vm, a);
                if IsTable(pte) then FindLeaf(c, mem, addr, access, supervisor, Ppn(pte) % W52, i + 1)
                else if Permits(c, pte, access, supervisor) then Some(Leaf(a, i, Ppn(pte)))
                else None
  {
    hide Pte, IsTable, Permits, Ppn, Index, PteAddr;
  }

  lemma PermitsIs(c: Csrs, pte: nat, access: Access, supervisor: bool)
    ensures Permits(c, pte, access, supervisor) <==>
            && !(if pte / 16 % 2 == 1 then supervisor && c.pum else !supervisor)
            && !(pte % 2 == 0 || (pte / 2 % 2 == 0 && pte / 4 % 2 == 1))
            && match access
               case FETCH => pte / 8 % 2 == 1
               case LOAD => pte / 2 % 2 == 1 || (c.mxr && pte / 8 % 2 == 1)
               case STORE => pte / 2 % 2 == 1 && pte / 4 % 2 == 1
  {
    LowSix(pte);
    FourBits(pte);
    FourBits(pte % 0x40);
  }

  lemma WalkMemIs(c: Csrs, mem: Memory, addr: nat, access: Access, supervisor: bool)
    ensures WalkMem(c, mem, addr, access, supervisor) ==
            match Walk(c, mem, addr, access, supervisor)
            case None => mem
            case Some(l) => mem[l.pteAddr - DRAM_BASE := Touched(mem[l.pteAddr - DRAM_BASE], access)]
  {
    hide Walk, Touched;
  }

  lemma TouchedIs(b: Byte, access: Access)
    ensures var a := if b / 0x40 % 2 == 0 then b + 0x40 else b;
            && a < 0x100 && Touched(b, access) == (if access == STORE && a / 0x80 % 2 == 0 then a + 0x80 else a)
            && (a / 0x80 % 2 == 0 ==> a + 0x80 < 0x100)
  {}

  lemma WithOffsetIs(page: nat, addr: nat)
    ensures WithOffset(page, addr) == Or(page * PGSIZE, addr % PGSIZE)
  {}

  class Mmu {
    var proc: Proc
    var mem: Memory
    const tlbInsnTag: array<Reg>
    const tlbLoadTag: array<Reg>
    const tlbStoreTag: array<Reg>
    const tlbData: array<int>
    var checkTriggersFetch: bool
    var checkTriggersLoad: bool
    var checkTriggersStore: bool
    var matchedTrigger: bool
    ghost var stale: bool
    ghost var cleared: bool
    ghost var earned: set<(Access, nat)>

    ghost predicate Shape() {
      && tlbInsnTag.Length == tlbLoadTag.Length == tlbStoreTag.Length == tlbData.Length == TLB_ENTRIES
      && tlbInsnTag != tlbLoadTag && tlbInsnTag != tlbStoreTag && tlbLoadTag != tlbStoreTag
    }

    /** The contents of the TLB. */
    ghost function Now(): (t: Entries)
      requires Shape()
      reads tlbInsnTag, tlbLoadTag, tlbStoreTag, tlbData
      ensures WellFormed(t)
    {
      Entries(tlbInsnTag[..], tlbLoadTag[..], tlbStoreTag[..], tlbData[..])
    }

    ghost predicate Valid()
      reads this, tlbInsnTag, tlbLoadTag, tlbStoreTag, tlbData
    {
      && Shape() && Agree(Now()) && HostRight(Now(), |mem|)
      && (!stale ==> OneMap(proc) && Coherent(proc, mem, Now()))
      && (!cleared ==> Marked(proc, mem, Now()))
      && Earned(earned, Now())
    }

    ghost function Check(access: Access): bool
      reads this
    {
      match access case FETCH => checkTriggersFetch case LOAD => checkTriggersLoad case STORE => checkTriggersStore
    }

    /** `flush_tlb` */
    method FlushTlb()
      requires Shape()
      modifies this`stale, this`cleared, this`earned, tlbInsnTag, tlbLoadTag, tlbStoreTag
      ensures Valid() && stale == !OneMap(proc) && !cleared && earned == {}
    {
      forall i | 0 <= i < TLB_ENTRIES { tlbInsnTag[i] := INVALID; }
      forall i | 0 <= i < TLB_ENTRIES { tlbLoadTag[i] := INVALID; }
      forall i | 0 <= i < TLB_ENTRIES { tlbStoreTag[i] := INVALID; }
      stale, cleared, earned := !OneMap(proc), false, {};
      FlushedIsCoherent(proc, mem, Now());
    }

    constructor (proc: Proc, mem: Memory)
      ensures Valid() && stale == !OneMap(proc) && !cleared && earned == {} && this.proc == proc && this.mem == mem
      ensures fresh(tlbInsnTag) && fresh(tlbLoadTag) && fresh(tlbStoreTag) && fresh(tlbData)
      ensures !checkTriggersFetch && !checkTriggersLoad && !checkTriggersStore && !matchedTrigger
    {
      this.proc, this.mem := proc, mem;
      tlbInsnTag, tlbLoadTag := new Reg[TLB_ENTRIES], new Reg[TLB_ENTRIES];
      tlbStoreTag, tlbData := new Reg[TLB_ENTRIES], new int[TLB_ENTRIES];
      checkTriggersFetch, checkTriggersLoad, checkTriggersStore, matchedTrigger := false, false, false, false;
      new;
      FlushTlb();
    }

    /** A change of the processor state, without a flush. */
    method SetProc(p: Proc)
      requires Valid()
      modifies this`proc, this`stale, this`cleared
      ensures Valid() && proc == p
      ensures stale == (old(stale) || !OneMap(p) || !SameTranslations(old(proc), mem, p, mem))
      ensures cleared == (old(cleared) || !Marked(p, mem, Now()))
    {
      hide Translate, Coherent, Agree, Marked, Earned;
      ghost var same := SameTranslations(proc, mem, p, mem);
      if same && !stale { CoherentIfSame(proc, mem, p, mem, Now()); }
      proc := p;
      stale, cleared := stale || !OneMap(p) || !same, cleared || !Marked(p, mem, Now());
    }

    /** The three tests of `walk` on an entry that is no pointer to a table. */
    method Denied(c: Csrs, pte: nat, access: Access, supervisor: bool) returns (denied: bool)
      ensures denied <==> !Permits(c, pte, access, supervisor)
    {
      hide Permits;
      PermitsIs(c, pte, access, supervisor);
      if if pte / 16 % 2 == 1 then supervisor && c.pum else !supervisor {
        return true;
      } else if pte % 2 == 0 || (pte / 2 % 2 == 0 && pte / 4 % 2 == 1) {
        return true;
      } else if match access
                case FETCH => pte / 8 % 2 == 0
                case LOAD => pte / 2 % 2 == 0 && !(c.mxr && pte / 8 % 2 == 1)
                case STORE => !(pte / 2 % 2 == 1 && pte / 4 % 2 == 1) {
        return true;
      }
      return false;
    }

    /** `walk` sets PTE_A, and PTE_D for a store. */
    method SetBits(o: nat, access: Access)
      requires o < |mem|
      modifies this`mem
      ensures mem == old(mem)[o := Touched(old(mem)[o], access)]
    {
      hide Touched;
      TouchedIs(mem[o], access);
      if mem[o] / 0x40 % 2 == 0 {
        mem := mem[o := mem[o] + 0x40];
      }
      if access == STORE && mem[o] / 0x80 % 2 == 0 {
        mem := mem[o := mem[o] + 0x80];
      }
    }

    /** What `walk` derives from the mode: its switch, and the two numbers of its test of the upper bits. */
    method ModeParameters(vm: Vm, ghost addr: nat)
      returns (levels: nat, entries: nat, ptesize: nat, span: nat, low: nat, high: nat)
      ensures levels == Levels(vm) > 0 && entries == PageWalk.Entries(vm) > 0
      ensures ptesize == PteSize(vm) && span == Span(vm, 0)
      ensures low > 0 && high > 0 && (Canonical(vm, addr) <==> addr / low % high == 0 || addr / low % high == high - 1)
    {
      hide Canonical;
      CanonicalIs(vm, addr);
      match vm
      case Sv32 =>
        levels, entries, ptesize, span := 2, 1024, 4, 0x400;
        low, high := 0x8000_0000, 2;
      case Sv39 =>
        levels, entries, ptesize, span := 3, 512, 8, 0x4_0000;
        low, high := 0x40_0000_0000, 0x400_0000;
      case Sv48 =>
        levels, entries, ptesize, span := 4, 512, 8, 0x800_0000;
        low, high := 0x8000_0000_0000, 0x2_0000;
    }

    /** `walk`: the page, or `None` for -1. */
    method WalkTable(c: Csrs, addr: nat, access: Access, supervisor: bool) returns (page: Option<nat>)
      modifies this`mem
      ensures mem == WalkMem(c, old(mem), addr, access, supervisor)
      ensures page == match Walk(c, old(mem), addr, access, supervisor)
                      case None => None
                      case Some(l) => Some(PageOf(c.vm, l, addr))
    {
      hide Permits, IsTable, Ppn, Pte, PageOf, Canonical, Index, PteAddr, Touched, FindLeaf, WalkMem, Or, Span,
           PageWalk.Entries, PteSize;
      var levels, entries, ptesize, span, low, high := ModeParameters(c.vm, addr);
      WalkMemIs(c, mem, addr, access, supervisor);
      var msbs := addr / low % high;
      if msbs != 0 && msbs != high - 1 {
        return None;
      }
      var base: nat := c.sptbr % W52;
      var i := 0;
      while i < levels
        invariant 0 <= i <= levels && mem == old(mem) && (i < levels ==> span == Span(c.vm, i))
        invariant FindLeaf(c, mem, addr, access, supervisor, base, i) == Walk(c, mem, addr, access, supervisor)
      {
        LeafStep(c, mem, addr, access, supervisor, base, i);
        PlaceIs(c.vm, base, addr, i);
        var idx := addr / (PGSIZE * span) % entries;
        var pteAddr := base * PGSIZE + idx * ptesize;
        if !IsMem(mem, pteAddr) {
          return None;
        }
        var pte := Pte(mem, c.vm, pteAddr);
        TableIs(pte);
        var ppn := pte / 0x400;
        if pte % 16 == 1 {
          base := ppn % W52;
        } else {
          var denied := Denied(c, pte, access, supervisor);
          if denied {
            return None;
          }
          ghost var l := Leaf(pteAddr, i, ppn);
          assert Walk(c, mem, addr, access, supervisor) == Some(l);
          PageOfIs(c.vm, l, addr);
          SetBits(pteAddr - DRAM_BASE, access);
          return Some(Or(ppn, addr / PGSIZE % span) % W52);
        }
        if i + 1 < levels { SpanIs(c.vm, i); }
        i := i + 1;
        span := span / entries;
      }
      LeafStep(c, mem, addr, access, supervisor, base, i);
      return None;
    }

    /** `translate` */
    method TranslateAddr(addr: Reg, access: Access) returns (r: Option<nat>)
      requires Valid()
      modifies this`mem, this`earned
      ensures Valid() && Settled(proc, mem, addr, access)
      ensures earned == Gained(old(earned), r, addr, access)
      ensures r == Translate(proc, old(mem), addr, access) == Translate(proc, mem, addr, access)
      ensures mem == TranslateMem(proc, old(mem), addr, access)
    {
      hide Agree, HostRight, Coherent, Walk, WalkMem, PageOf, WithOffset, Marked, Earned, Settled;
      TranslateIsTransparent(proc, mem, addr, access);
      TranslateSettles(proc, mem, addr, access);
      ghost var mem0 := mem;
      if !cleared { MarkedAfterTranslate(proc, mem, Now(), addr, access); }
      EarnedGrows(earned, Gained(earned, Translate(proc, mem, addr, access), addr, access), Now());
      earned := Gained(earned, Translate(proc, mem, addr, access), addr, access);
      if !stale { CoherentIfSame(proc, mem, proc, TranslateMem(proc, mem, addr, access), Now()); }
      if proc.NoProc? {
        return Some(addr);
      }
      var mode := proc.prv;
      if access != FETCH {
        if !proc.debugCause && proc.mprv {
          mode := proc.mpp;
        }
      }
      if proc.bare {
        mode := 3;
      }
      if mode == 3 {
        return Some(if proc.xlen32 then addr % W32 else addr % W64);
      }
      var page := WalkTable(proc.csrs, addr, access, mode == 1);
      match page
      case None => return None;
      case Some(value) =>
        WithOffsetIs(value, addr);
        return Some(Or(value * PGSIZE, addr % PGSIZE));
    }

    /** The body of `refill_tlb`. */
    method WriteEntry(vaddr: Reg, paddr: nat, access: Access)
      requires Shape()
      modifies tlbInsnTag, tlbLoadTag, tlbStoreTag, tlbData
      ensures Now() == Refilled(old(Now()), vaddr, paddr - DRAM_BASE, access, Check(access))
    {
      var idx := Slot(vaddr);
      var vpn := vaddr / PGSIZE;
      var expected: Reg := vpn;
      ghost var t := Now();
      DropOtherPage(tlbLoadTag, idx, vpn);
      DropOtherPage(tlbStoreTag, idx, vpn);
      DropOtherPage(tlbInsnTag, idx, vpn);
      if (checkTriggersFetch && access == FETCH) || (checkTriggersLoad && access == LOAD)
         || (checkTriggersStore && access == STORE) {
        expected := vpn + TLB_CHECK_TRIGGERS;
      }
      if access == FETCH {
        tlbInsnTag[idx] := expected;
      } else if access == STORE {
        tlbStoreTag[idx] := expected;
      } else {
        tlbLoadTag[idx] := expected;
      }
      tlbData[idx] := paddr - DRAM_BASE - vaddr;
      ghost var check := Check(access);
      assert Now() == Refilled(t, vaddr, paddr - DRAM_BASE, access, check);
    }

    /** `refill_tlb` */
    method RefillTlb(vaddr: Reg, paddr: nat, access: Access)
      requires Valid() && HostPage(paddr - DRAM_BASE - vaddr % PGSIZE, |mem|)
      requires !stale ==> Translate(proc, mem, vaddr, access) == Some(paddr) && IsMem(mem, paddr)
      requires (access, vaddr / PGSIZE) in earned
      modifies this`cleared, tlbInsnTag, tlbLoadTag, tlbStoreTag, tlbData
      ensures Valid()
      ensures cleared == (old(cleared) || !Settled(proc, mem, vaddr, access))
      ensures Now() == Refilled(old(Now()), vaddr, paddr - DRAM_BASE, access, Check(access))
    {
      hide Agree, HostRight, Coherent, Translate, OneMap, Marked, Earned, Settled, Refilled, Now, HostPage;
      ghost var t, check := Now(), Check(access);
      WriteEntry(vaddr, paddr, access);
      RefillKeepsValid(proc, mem, t, vaddr, paddr, access, check, stale);
      if !cleared && Settled(proc, mem, vaddr, access) {
        MarkedAfterRefill(proc, mem, t, vaddr, paddr - DRAM_BASE, access, check);
      }
      EarnedAfterRefill(earned, t, vaddr, paddr - DRAM_BASE, access, check);
      cleared := cleared || !Settled(proc, mem, vaddr, access);
    }

    /** A pointer of the TLB, on a hit. */
    ghost predicate Points(h: int, addr: Reg, access: Access)
      reads this
    {
      && HostPage(h - addr % PGSIZE, |mem|)
      && (!stale ==> InMem(mem, Translate(proc, mem, addr, access))
                     && h == Translate(proc, mem, addr, access).value - DRAM_BASE)
    }

    /** A hit has been earned by a translation since the last flush. */
    lemma HitIsEarned(addr: Reg, access: Access)
      requires Valid() && Hit(Now(), access, addr)
      ensures (access, addr / PGSIZE) in earned && (!cleared ==> Settled(proc, mem, addr, access))
    {
      hide Marked, Earned, Agree, HostRight, Coherent, Hit, Settled;
      HitWasEarned(proc, mem, Now(), earned, addr, access);
    }

    /** A hit leads to host memory, and where `translate` would while the TLB is not stale. */
    lemma HitPoints(addr: Reg, access: Access)
      requires Valid() && Hit(Now(), access, addr)
      ensures Points(tlbData[Slot(addr)] + addr, addr, access)
    {
      hide Translate, PageIn, Settled, Marked, Earned;
      TagFacts(addr / PGSIZE);
      var t, idx := Now(), Slot(addr);
      assert Tag(t, access, idx) != INVALID;
      assert t.data[idx] + addr - addr % PGSIZE == t.data[idx] + PageIn(Tag(t, access, idx)) * PGSIZE;
      if !stale { HitIsTranslation(proc, mem, t, addr, access); }
    }

    /** A trigger that would be thrown: there is a processor, it matches, and none is pending. */
    ghost predicate Fires(trigger: Trigger)
      reads this
    {
      proc.Proc? && trigger.Match? && !matchedTrigger
    }

    /** The access ends in a trigger: at once behind a flagged tag, never behind a plain one, and on a miss when the
        data is `reached`. */
    ghost predicate Throws(access: Access, addr: Reg, trigger: Trigger, reached: bool)
      requires Shape()
      reads this, tlbInsnTag, tlbLoadTag, tlbStoreTag, tlbData
    {
      var tag := Tag(Now(), access, Slot(addr));
      Fires(trigger) && (tag == addr / PGSIZE + TLB_CHECK_TRIGGERS || (tag != addr / PGSIZE && reached))
    }

    /** `trigger_exception` and the throw that follows it: true when an exception leaves the access. */
    method TriggerThrows(trigger: Trigger) returns (thrown: bool)
      modifies this`matchedTrigger
      ensures thrown == old(Fires(trigger))
      ensures matchedTrigger == (old(matchedTrigger) || (thrown && trigger == Match(true)))
    {
      if matchedTrigger {
        return false;
      }
      if proc.NoProc? {
        return false;
      }
      if trigger.NoMatch? {
        return false;
      }
      if trigger.after { matchedTrigger := true; }
      return true;
    }

    /** The TLB after a miss that was translated to `u`. */
    ghost function AfterMiss(t: Entries, u: Option<nat>, addr: Reg, access: Access, fill: bool): Entries
      requires WellFormed(t)
      reads this
    {
      if fill && InMem(mem, u) then Refilled(t, addr, u.value - DRAM_BASE, access, Check(access)) else t
    }

    // ----- loads -----

    /** What a load that is done returns, when translations are what they were at the last flush. */
    ghost predicate Loads(t: Option<nat>, len: nat, mmio: Option<seq<Byte>>, r: Outcome<seq<Byte>>)
      reads this
    {
      && (r.Done? && InMem(mem, t) ==>
            t.value - DRAM_BASE + len <= |mem| && r.value == mem[t.value - DRAM_BASE..][..len])
      && (r.Done? && !InMem(mem, t) ==> mmio == Some(r.value))
      && (r.AccessFault? <==> !InMem(mem, t) && mmio.None?)
    }

    method LoadSlowPath(addr: Reg, len: nat, traced: bool, mmio: Option<seq<Byte>>, trigger: Trigger)
      returns (r: Outcome<seq<Byte>>)
      requires Valid() && IsSize(len) && addr % len == 0
      modifies this`mem, this`earned, this`cleared, this`matchedTrigger, tlbInsnTag, tlbLoadTag, tlbStoreTag, tlbData
      ensures Valid() && !r.Misaligned?
      ensures mem == TranslateMem(proc, old(mem), addr, LOAD) && cleared == old(cleared)
      ensures earned == Gained(old(earned), Translate(proc, old(mem), addr, LOAD), addr, LOAD)
      ensures Now() == AfterMiss(old(Now()), Translate(proc, old(mem), addr, LOAD), addr, LOAD, !traced)
      ensures Loads(Translate(proc, old(mem), addr, LOAD), len, mmio, r)
      ensures r.TriggerMatched? <==>
                old(Fires(trigger)) && (InMem(mem, Translate(proc, old(mem), addr, LOAD)) || mmio.Some?)
      ensures matchedTrigger == (old(matchedTrigger) || (r.TriggerMatched? && trigger == Match(true)))
    {
      hide Agree, HostRight, Coherent, Translate, TranslateMem, OneMap, HostPage, Marked, Earned;
      var paddr := TranslateAddr(addr, LOAD);
      var bytes: seq<Byte>;
      if InMem(mem, paddr) {
        InMemHost(mem, proc, addr, LOAD);
        var h := paddr.value - DRAM_BASE;
        AccessFits(|mem|, h, addr, len);
        bytes := mem[h..][..len];
        if !traced {
          RefillTlb(addr, paddr.value, LOAD);
        }
      } else if mmio.Some? {
        bytes := mmio.value;
      } else {
        return AccessFault;
      }
      var thrown := TriggerThrows(trigger);
      if thrown { return TriggerMatched; }
      return Done(bytes);
    }

    /** `load_func` for a type of `len` bytes. */
    method Load(addr: Reg, len: nat, traced: bool, mmio: Option<seq<Byte>>, trigger: Trigger)
      returns (r: Outcome<seq<Byte>>)
      requires Valid() && IsSize(len)
      modifies this`mem, this`earned, this`cleared, this`matchedTrigger, tlbInsnTag, tlbLoadTag, tlbStoreTag, tlbData
      ensures Valid() && cleared == old(cleared)
      ensures r.Misaligned? <==> addr % len != 0
      ensures r.Misaligned? || old(Hit(Now(), LOAD, addr)) ==>
                mem == old(mem) && earned == old(earned) && Now() == old(Now())
      ensures !r.Misaligned? && !old(Hit(Now(), LOAD, addr)) ==>
                && mem == TranslateMem(proc, old(mem), addr, LOAD)
                && earned == Gained(old(earned), Translate(proc, old(mem), addr, LOAD), addr, LOAD)
                && Now() == AfterMiss(old(Now()), Translate(proc, old(mem), addr, LOAD), addr, LOAD, !traced)
      ensures !r.Misaligned? && !cleared ==> mem == TranslateMem(proc, old(mem), addr, LOAD)
      ensures !r.Misaligned? && old(Hit(Now(), LOAD, addr)) ==> (LOAD, addr / PGSIZE) in earned
      ensures !stale && !r.Misaligned? ==> Loads(Translate(proc, old(mem), addr, LOAD), len, mmio, r)
      ensures !r.Misaligned? && old(Hit(Now(), LOAD, addr)) ==>
                var h := old(tlbData[Slot(addr)]) + addr;
                && !r.AccessFault? && 0 <= h <= h + len <= |mem| && (r.Done? ==> r.value == mem[h..h + len])
      ensures !r.Misaligned? ==>
                (r.TriggerMatched? <==>
                   old(Throws(LOAD, addr, trigger, InMem(mem, Translate(proc, mem, addr, LOAD)) || mmio.Some?)))
      ensures matchedTrigger == (old(matchedTrigger) || (r.TriggerMatched? && trigger == Match(true)))
    {
      hide Agree, HostRight, Coherent, Translate, TranslateMem, OneMap, HostPage, Marked, Earned, PageIn;
      if addr % len != 0 {
        return Misaligned;
      }
      var vpn := addr / PGSIZE;
      var idx := vpn % TLB_ENTRIES;
      TagFacts(vpn);
      HitExactlyWhen(Now(), LOAD, addr);
      if tlbLoadTag[idx] == vpn {
        HitIsEarned(addr, LOAD);
        HitPoints(addr, LOAD);
        var h := tlbData[idx] + addr;
        AccessFits(|mem|, h, addr, len);
        return Done(mem[h..][..len]);
      }
      if tlbLoadTag[idx] == vpn + TLB_CHECK_TRIGGERS {
        HitIsEarned(addr, LOAD);
        HitPoints(addr, LOAD);
        var h := tlbData[idx] + addr;
        AccessFits(|mem|, h, addr, len);
        var data := mem[h..][..len];
        var thrown := TriggerThrows(trigger);
        if thrown { return TriggerMatched; }
        return Done(data);
      }
      r := LoadSlowPath(addr, len, traced, mmio, trigger);
    }

    // ----- stores -----

    /** Bytes into memory. A store that changes translations makes the TLB stale, and one that leaves something to set
        behind a valid tag is noted. */
    method WriteMem(h: int, bytes: seq<Byte>)
      requires Valid() && 0 <= h <= h + |bytes| <= |mem|
      modifies this`mem, this`stale, this`cleared
      ensures Valid() && mem == WriteBytes(old(mem), h, bytes)
      ensures stale == (old(stale) || !SameTranslations(proc, old(mem), proc, mem))
      ensures cleared == (old(cleared) || !Marked(proc, mem, Now()))
    {
      hide Agree, HostRight, Coherent, Translate, OneMap, Marked, Earned;
      ghost var m := WriteBytes(mem, h, bytes);
      ghost var same := SameTranslations(proc, mem, proc, m);
      if same && !stale { CoherentIfSame(proc, mem, proc, m, Now()); }
      mem := WriteBytes(mem, h, bytes);
      stale, cleared := stale || !same, cleared || !Marked(proc, mem, Now());
    }

    /** What a store does to the memory `m` that translating its address leaves. */
    ghost predicate Stores(t: Option<nat>, m: Memory, bytes: seq<Byte>, mmioOk: bool, r: Outcome<()>)
      reads this
    {
      && (r.Done? && InMem(m, t) ==>
            t.value - DRAM_BASE + |bytes| <= |m| && mem == WriteBytes(m, t.value - DRAM_BASE, bytes))
      && (!(r.Done? && InMem(m, t)) ==> mem == m)
      && (r.AccessFault? ==> !InMem(m, t) && !mmioOk)
      && (r.Done? ==> InMem(m, t) || mmioOk)
    }

    method StoreSlowPath(addr: Reg, bytes: seq<Byte>, traced: bool, mmioOk: bool, trigger: Trigger)
      returns (r: Outcome<()>)
      requires Valid() && IsSize(|bytes|) && addr % |bytes| == 0
      modifies this`mem, this`earned, this`stale, this`cleared, this`matchedTrigger
      modifies tlbInsnTag, tlbLoadTag, tlbStoreTag, tlbData
      ensures Valid() && !r.Misaligned?
      ensures earned == Gained(old(earned), Translate(proc, old(mem), addr, STORE), addr, STORE)
      ensures Now() == AfterMiss(old(Now()), Translate(proc, old(mem), addr, STORE), addr, STORE, r.Done? && !traced)
      ensures cleared ==> old(cleared) || !Marked(proc, mem, old(Now())) || !Settled(proc, mem, addr, STORE)
      ensures Stores(Translate(proc, old(mem), addr, STORE), TranslateMem(proc, old(mem), addr, STORE),
                     bytes, mmioOk, r)
      ensures stale ==> old(stale) || !SameTranslations(proc, TranslateMem(proc, old(mem), addr, STORE), proc, mem)
      ensures r.TriggerMatched? <==> old(Fires(trigger))
      ensures matchedTrigger == (old(matchedTrigger) || (r.TriggerMatched? && trigger == Match(true)))
    {
      hide Agree, HostRight, Coherent, Translate, TranslateMem, OneMap, HostPage, Marked, Earned, WriteBytes;
      var paddr := TranslateAddr(addr, STORE);
      ghost var m := mem;
      var thrown := TriggerThrows(trigger);
      if thrown { return TriggerMatched; }
      if InMem(mem, paddr) {
        InMemHost(mem, proc, addr, STORE);
        var h := paddr.value - DRAM_BASE;
        AccessFits(|mem|, h, addr, |bytes|);
        WriteMem(h, bytes);
        if !traced {
          RefillTlb(addr, paddr.value, STORE);
        }
      } else if !mmioOk {
        return AccessFault;
      }
      return Done(());
    }

    /** `store_func` for a type of `|bytes|` bytes. */
    method Store(addr: Reg, bytes: seq<Byte>, traced: bool, mmioOk: bool, trigger: Trigger) returns (r: Outcome<()>)
      requires Valid() && IsSize(|bytes|)
      modifies this`mem, this`earned, this`stale, this`cleared, this`matchedTrigger
      modifies tlbInsnTag, tlbLoadTag, tlbStoreTag, tlbData
      ensures Valid()
      ensures r.Misaligned? <==> addr % |bytes| != 0
      ensures r.Misaligned? || old(Hit(Now(), STORE, addr)) ==> earned == old(earned) && Now() == old(Now())
      ensures !r.Misaligned? && !old(Hit(Now(), STORE, addr)) ==>
                && earned == Gained(old(earned), Translate(proc, old(mem), addr, STORE), addr, STORE)
                && Now() == AfterMiss(old(Now()), Translate(proc, old(mem), addr, STORE), addr, STORE,
                                      r.Done? && !traced)
      ensures r.Misaligned? ==> mem == old(mem)
      ensures !old(stale) && old(Hit(Now(), STORE, addr)) && !r.Misaligned? ==>
                Stores(Translate(proc, old(mem), addr, STORE), old(mem), bytes, mmioOk, r)
      ensures (!old(stale) && !old(cleared)) || !old(Hit(Now(), STORE, addr)) ==> !r.Misaligned? ==>
                Stores(Translate(proc, old(mem), addr, STORE), TranslateMem(proc, old(mem), addr, STORE),
                       bytes, mmioOk, r)
      ensures !r.Misaligned? && old(Hit(Now(), STORE, addr)) ==> (STORE, addr / PGSIZE) in earned
      ensures stale && !old(stale) ==> !SameTranslations(proc, old(mem), proc, mem)
      ensures cleared && !old(cleared) ==> !Marked(proc, mem, old(Now())) || !Settled(proc, mem, addr, STORE)
      ensures !r.Misaligned? && old(Hit(Now(), STORE, addr)) ==>
                var h := old(tlbData[Slot(addr)]) + addr;
                && !r.AccessFault? && 0 <= h <= h + |bytes| <= |old(mem)|
                && mem == if r.Done? then WriteBytes(old(mem), h, bytes) else old(mem)
      ensures !r.Misaligned? ==> (r.TriggerMatched? <==> old(Throws(STORE, addr, trigger, true)))
      ensures matchedTrigger == (old(matchedTrigger) || (r.TriggerMatched? && trigger == Match(true)))
    {
      hide Agree, HostRight, Coherent, Translate, TranslateMem, OneMap, HostPage, Marked, Earned, PageIn, WriteBytes;
      if addr % |bytes| != 0 {
        return Misaligned;
      }
      var vpn := addr / PGSIZE;
      var idx := vpn % TLB_ENTRIES;
      TagFacts(vpn);
      HitExactlyWhen(Now(), STORE, addr);
      if tlbStoreTag[idx] == vpn {
        HitIsEarned(addr, STORE);
        HitPoints(addr, STORE);
        var h := tlbData[idx] + addr;
        AccessFits(|mem|, h, addr, |bytes|);
        WriteMem(h, bytes);
        return Done(());
      } else if tlbStoreTag[idx] == vpn + TLB_CHECK_TRIGGERS {
        HitIsEarned(addr, STORE);
        HitPoints(addr, STORE);
        var h := tlbData[idx] + addr;
        AccessFits(|mem|, h, addr, |bytes|);
        var thrown := TriggerThrows(trigger);
        if thrown { return TriggerMatched; }
        WriteMem(h, bytes);
        return Done(());
      } else {
        SameAfterTranslate(proc, mem, addr, STORE);
        r := StoreSlowPath(addr, bytes, traced, mmioOk, trigger);
      }
    }

    // ----- fetches -----

    method FetchSlowPath(addr: Reg, mmioOk: bool) returns (r: Outcome<Pointer>)
      requires Valid()
      modifies this`mem, this`earned, this`cleared, tlbInsnTag, tlbLoadTag, tlbStoreTag, tlbData
      ensures Valid() && mem == TranslateMem(proc, old(mem), addr, FETCH) && cleared == old(cleared)
      ensures earned == Gained(old(earned), Translate(proc, old(mem), addr, FETCH), addr, FETCH)
      ensures Now() == AfterMiss(old(Now()), Translate(proc, old(mem), addr, FETCH), addr, FETCH, true)
      ensures r == Fetches(Translate(proc, old(mem), addr, FETCH), addr, mmioOk)
    {
      hide Agree, HostRight, Coherent, Translate, TranslateMem, OneMap, HostPage, Marked, Earned;
      var t := TranslateAddr(addr, FETCH);
      var paddr := if t.None? then W64 - 1 else t.value;
      if paddr == W64 - 1 && addr != W64 - 1 {
        return AccessFault;
      }
      if t.Some? && IsMem(mem, paddr) {
        InMemHost(mem, proc, addr, FETCH);
        RefillTlb(addr, paddr, FETCH);
        return Done(Host(paddr - DRAM_BASE));
      } else if !mmioOk {
        return AccessFault;
      }
      return Done(FetchTemp);
    }

    /** What a fetch gives: host memory, the device buffer, or a fault. */
    ghost function Fetches(t: Option<nat>, addr: Reg, mmioOk: bool): Outcome<Pointer>
      reads this
    {
      if InMem(mem, t) then Done(Host(t.value - DRAM_BASE))
      else if !mmioOk || ((t.None? || t.value == W64 - 1) && addr != W64 - 1) then AccessFault
      else Done(FetchTemp)
    }

    /** `translate_insn_addr` */
    method TranslateInsnAddr(addr: Reg, mmioOk: bool, trigger: Trigger) returns (r: Outcome<Pointer>)
      requires Valid()
      modifies this`mem, this`earned, this`cleared, tlbInsnTag, tlbLoadTag, tlbStoreTag, tlbData
      ensures Valid() && cleared == old(cleared)
      ensures old(Hit(Now(), FETCH, addr)) ==> mem == old(mem) && earned == old(earned) && Now() == old(Now())
      ensures !old(Hit(Now(), FETCH, addr)) ==>
                && mem == TranslateMem(proc, old(mem), addr, FETCH)
                && earned == Gained(old(earned), Translate(proc, old(mem), addr, FETCH), addr, FETCH)
                && Now() == AfterMiss(old(Now()), Translate(proc, old(mem), addr, FETCH), addr, FETCH, true)
      ensures !cleared ==> mem == TranslateMem(proc, old(mem), addr, FETCH)
      ensures old(Hit(Now(), FETCH, addr)) ==> (FETCH, addr / PGSIZE) in earned
      ensures r.TriggerMatched? <==>
                trigger.Match? && old(Tag(Now(), FETCH, Slot(addr))) == addr / PGSIZE + TLB_CHECK_TRIGGERS
      ensures !r.TriggerMatched? && (!stale || !old(Hit(Now(), FETCH, addr))) ==>
                r == Fetches(Translate(proc, old(mem), addr, FETCH), addr, mmioOk)
      ensures !r.TriggerMatched? && old(Hit(Now(), FETCH, addr)) ==> r == Done(Host(old(tlbData[Slot(addr)]) + addr))
    {
      hide Agree, HostRight, Coherent, Translate, TranslateMem, OneMap, HostPage, Marked, Earned, PageIn;
      var vpn := addr / PGSIZE;
      var idx := vpn % TLB_ENTRIES;
      TagFacts(vpn);
      HitExactlyWhen(Now(), FETCH, addr);
      if tlbInsnTag[idx] == vpn {
        HitIsEarned(addr, FETCH);
        HitPoints(addr, FETCH);
        return Done(Host(tlbData[idx] + addr));
      }
      if tlbInsnTag[idx] == vpn + TLB_CHECK_TRIGGERS {
        HitIsEarned(addr, FETCH);
        HitPoints(addr, FETCH);
        if trigger.Match? { return TriggerMatched; }
        return Done(Host(tlbData[idx] + addr));
      }
      r := FetchSlowPath(addr, mmioOk);
    }
  }

  /** The translations that have succeeded, after one more. */
  ghost function Gained(w: set<(Access, nat)>, r: Option<nat>, addr: Reg, access: Access): set<(Access, nat)> {
    if r.Some? then w + {(access, addr / PGSIZE)} else w
  }

  lemma EarnedGrows(w: set<(Access, nat)>, w': set<(Access, nat)>, t: Entries)
    requires Earned(w, t) && w <= w'
    ensures Earned(w', t)
  {}

  lemma SameAfterTranslate(p: Proc, mem: Memory, addr: Reg, access: Access)
    ensures forall m: Memory ::
              SameTranslations(p, mem, p, m) ==> SameTranslations(p, TranslateMem(p, mem, addr, access), p, m)
  {
    hide Translate, TranslateMem;
    TranslateIsTransparent(p, mem, addr, access);
  }

  lemma RefillKeepsValid(p: Proc, mem: Memory, t: Entries, vaddr: Reg, paddr: nat, access: Access, check: bool,
                         stale: bool)
    requires Agree(t) && HostRight(t, |mem|) && (!stale ==> OneMap(p) && Coherent(p, mem, t))
    requires HostPage(paddr - DRAM_BASE - vaddr % PGSIZE, |mem|)
    requires !stale ==> Translate(p, mem, vaddr, access) == Some(paddr) && IsMem(mem, paddr)
    ensures var t' := Refilled(t, vaddr, paddr - DRAM_BASE, access, check);
            Agree(t') && HostRight(t', |mem|) && (!stale ==> Coherent(p, mem, t'))
  {
    hide Translate, Refilled, Agree, HostRight, Coherent, HostPage;
    AgreeAfterRefill(t, vaddr, paddr - DRAM_BASE, access, check);
    HostAfterRefill(t, vaddr, paddr - DRAM_BASE, access, check, |mem|);
    if !stale { RefillIsCoherent(p, mem, t, vaddr, access, check); }
  }

  lemma FlushedIsCoherent(p: Proc, mem: Memory, t: Entries)
    requires WellFormed(t)
    requires forall idx, x: Access :: 0 <= idx < TLB_ENTRIES ==> Tag(t, x, idx) == INVALID
    ensures Agree(t) && HostRight(t, |mem|) && Coherent(p, mem, t) && Marked(p, mem, t) && Earned({}, t)
  {}
}
