/**
 Where the TLB and `translate` part: processors whose fetches and loads share a data entry but not an address, and
 stores that clear a dirty bit behind a valid tag. Both with the memory that shows it.
 */
module TlbLimits {
  import opened Mmu
  import opened Numbers
  import opened PageRights
  import opened PageWalk
  import opened Tlb
  import opened Wrappers

  // ----- a page table with one entry -----

  /** Where in the root table the entry for the first page of memory is. */
  function TopOffset(vm: Vm): (o: nat)
    ensures o + 8 <= PGSIZE && o % 8 == 0
  {
    match vm case Sv32 => 2048 case Sv39 => 16 case Sv48 => 0
  }

  /** The number of pages up to page `root`, and at least two. */
  function Pages(root: nat): nat
    requires 0x80000 <= root
  {
    if root < 0x80002 then 2 else root - 0x80000 + 1
  }

  /** A memory whose root table at page `root` maps the first page of memory to `page`, with the low byte `flags`. */
  function RootMemory(vm: Vm, root: nat, flags: Byte, page: nat): (m: Memory)
    requires 0x80000 <= root < W52 - 1 && (page == 0x80000 || page == 0x80001)
  {
    var o := (root - 0x80000) * PGSIZE + TopOffset(vm);
    PagesFit(root);
    seq(Pages(root) * PGSIZE, i requires 0 <= i < Pages(root) * PGSIZE =>
      if i == o then flags else if i == o + 1 then 4 * (page - 0x80000) else if i == o + 3 then 0x20 else 0)
  }

  lemma PagesFit(root: nat)
    requires 0x80000 <= root < W52 - 1
    ensures Pages(root) * PGSIZE % PGSIZE == 0 && Pages(root) * PGSIZE < W64 - DRAM_BASE
    ensures (root - 0x80000) * PGSIZE + PGSIZE <= Pages(root) * PGSIZE && Pages(root) * PGSIZE >= 2 * PGSIZE
  {}

  lemma {:induction false} OrSame(a: nat)
    ensures Or(a, a) == a
  {
    if a > 0 {
      OrSame(a / 2);
      OrStep(a / 2, a % 2, a / 2, a % 2);
    }
  }

  lemma TopPage(vm: Vm, page: nat)
    requires page == 0x80000 || page == 0x80001
    ensures Or(page, 0x80000 % Span(vm, 0)) == page
  {
    hide Or;
    assert 0x80000 % 0x400 == 0 && 0x80000 % 0x4_0000 == 0 && 0x80000 % 0x800_0000 == 0x80000;
    OrNothing(page);
    OrSame(0x80000);
    OrSame(0x40000);
    OrStep(0x40000, 1, 0x40000, 0);
  }

  lemma TopIndex(vm: Vm, root: nat)
    ensures Canonical(vm, DRAM_BASE)
    ensures PteAddr(vm, root, Index(vm, DRAM_BASE, 0)) == root * PGSIZE + TopOffset(vm)
  {
    TopSlot(vm);
    hide Index, Canonical;
  }

  lemma TopSlot(vm: Vm)
    ensures Canonical(vm, DRAM_BASE)
    ensures Index(vm, DRAM_BASE, 0) == match vm case Sv32 => 512 case Sv39 => 2 case Sv48 => 0
  {
    match vm
    case Sv32 => assert DRAM_BASE / 0x40_0000 == 512;
    case Sv39 => assert DRAM_BASE / 0x4000_0000 == 2;
    case Sv48 => assert DRAM_BASE / 0x80_0000_0000 == 0;
  }

  lemma TopBytes(vm: Vm, root: nat, flags: Byte, page: nat)
    requires 0x80000 <= root < W52 - 1 && (page == 0x80000 || page == 0x80001)
    ensures var m, o := RootMemory(vm, root, flags, page), (root - 0x80000) * PGSIZE + TopOffset(vm);
            && o + 8 <= |m| && m[o] == flags && m[o + 1] == 4 * (page - 0x80000) && m[o + 2] == 0 && m[o + 3] == 0x20
            && m[o + 4] == 0 && m[o + 5] == 0 && m[o + 6] == 0 && m[o + 7] == 0
  {
    PagesFit(root);
    hide Pages, TopOffset;
  }

  lemma TopAligned(vm: Vm, root: nat)
    ensures (root * PGSIZE + TopOffset(vm)) % PteSize(vm) == 0
  {
    var k := TopOffset(vm) / 8;
    assert TopOffset(vm) == 8 * k;
    Multiple(512 * root + k);
  }

  lemma Multiple(k: nat)
    ensures 8 * k % 4 == 0 && 8 * k % 8 == 0
  {
    DivModUnique(8 * k, 4, 2 * k, 0);
    DivModUnique(8 * k, 8, k, 0);
  }

  lemma TopPte(vm: Vm, root: nat, flags: Byte, page: nat)
    requires 0x80000 <= root < W52 - 1 && (page == 0x80000 || page == 0x80001)
    ensures var m, a := RootMemory(vm, root, flags, page), root * PGSIZE + TopOffset(vm);
            && IsPte(m, vm, a) && Pte(m, vm, a) == flags + 0x400 * page && m[a - DRAM_BASE] == flags
  {
    hide RootMemory, TopOffset;
    TopBytes(vm, root, flags, page);
    TopAligned(vm, root);
    var a := root * PGSIZE + TopOffset(vm);
    assert a - DRAM_BASE == (root - 0x80000) * PGSIZE + TopOffset(vm);
  }

  lemma TopFlags(c: Csrs, flags: Byte, page: nat, access: Access, supervisor: bool)
    requires flags % 0x40 == if supervisor then 0x0f else 0x1f
    ensures var pte := flags + 0x400 * page;
            !IsTable(pte) && Permits(c, pte, access, supervisor) && Ppn(pte) == page
  {
    var pte := flags + 0x400 * page;
    DivModUnique(pte, 0x400, page, flags);
    assert flags / 0x40 * 0x40 + flags % 0x40 == flags;
    DivModUnique(pte, 0x40, 0x10 * page + flags / 0x40, flags % 0x40);
    TopFlagsAllow(c, pte, access, supervisor);
  }

  lemma TopFlagsAllow(c: Csrs, pte: nat, access: Access, supervisor: bool)
    requires pte % 0x40 == if supervisor then 0x0f else 0x1f
    ensures !IsTable(pte) && Permits(c, pte, access, supervisor)
  {}

  /** Where the entry of the next level would be: there is nothing. */
  lemma NextIsEmpty(vm: Vm, root: nat, flags: Byte, page: nat)
    requires 0x80000 <= root < W52 - 1 && (page == 0x80000 || page == 0x80001)
    ensures var m, a := RootMemory(vm, root, flags, page), PteAddr(vm, page, Index(vm, DRAM_BASE, 1));
            IsPte(m, vm, a) && PteFlags(m, vm, a) == 0
  {
    NextSlot(vm);
    PagesFit(root);
    NextAligned(vm, page);
    hide Index;
  }

  lemma NextSlot(vm: Vm)
    ensures Index(vm, DRAM_BASE, 1) == if vm.Sv48? then 2 else 0
  {
    match vm
    case Sv32 => assert DRAM_BASE / 0x1000 == 0x80000;
    case Sv39 => assert DRAM_BASE / 0x20_0000 == 0x400;
    case Sv48 => assert DRAM_BASE / 0x4000_0000 == 2;
  }

  lemma NextAligned(vm: Vm, page: nat)
    requires page == 0x80000 || page == 0x80001
    ensures PteAddr(vm, page, if vm.Sv48? then 2 else 0) == page * PGSIZE + if vm.Sv48? then 16 else 0
  {}

  lemma EmptyFlags(rest: nat)
    ensures !IsTable(0x100 * rest)
  {
    FlagsOfByte(0, rest);
  }

  /** The walk for the first page ends at the entry, when that is a leaf. */
  lemma EntryIsLeaf(c: Csrs, flags: Byte, page: nat)
    requires 0x80000 <= c.sptbr % W52 < W52 - 1 && (page == 0x80000 || page == 0x80001)
    requires !IsTable(flags + 0x400 * page)
    ensures var m := RootMemory(c.vm, c.sptbr % W52, flags, page);
            var l := Entry(c, m, DRAM_BASE);
            l.Some? && m[l.value.pteAddr - DRAM_BASE] == flags
  {
    hide RootMemory, Pte, PteRest, Ppn, IsTable, Index, TopOffset, PteAddr, EntryFrom;
    var root := c.sptbr % W52;
    EntryStep(c, RootMemory(c.vm, root, flags, page), DRAM_BASE, root, 0);
    TopIndex(c.vm, root);
    TopPte(c.vm, root, flags, page);
  }

  /** If it points to a table, the walk ends at the empty entry there. */
  lemma EntryIsTable(c: Csrs, flags: Byte, page: nat)
    requires 0x80000 <= c.sptbr % W52 < W52 - 1 && (page == 0x80000 || page == 0x80001)
    requires IsTable(flags + 0x400 * page)
    ensures var m := RootMemory(c.vm, c.sptbr % W52, flags, page);
            var l := Entry(c, m, DRAM_BASE);
            l.Some? && m[l.value.pteAddr - DRAM_BASE] == 0
  {
    hide RootMemory, Pte, PteRest, Ppn, IsTable, Index, TopOffset, PteAddr, EntryFrom;
    var root := c.sptbr % W52;
    var m := RootMemory(c.vm, root, flags, page);
    EntryStep(c, m, DRAM_BASE, root, 0);
    TopIndex(c.vm, root);
    TopPte(c.vm, root, flags, page);
    TopPpn(flags, page);
    NextIsEmpty(c.vm, root, flags, page);
    EntryStep(c, m, DRAM_BASE, page, 1);
    EmptyPte(m, c.vm, PteAddr(c.vm, page, Index(c.vm, DRAM_BASE, 1)));
  }

  /** The flags of a single entry let an access through exactly when `Allows` says so, whatever they are. */
  lemma OneEntryExactlyWhen(c: Csrs, flags: Byte, page: nat, access: Access, supervisor: bool)
    requires 0x80000 <= c.sptbr % W52 < W52 - 1 && (page == 0x80000 || page == 0x80001)
    ensures Walk(c, RootMemory(c.vm, c.sptbr % W52, flags, page), DRAM_BASE, access, supervisor).Some? <==>
            Allows(flags, c.pum, c.mxr, access, supervisor)
  {
    hide RootMemory, IsTable, Canonical, Allows, Walk, Entry;
    WalkExactlyWhen(c, RootMemory(c.vm, c.sptbr % W52, flags, page), DRAM_BASE, access, supervisor);
    TopSlot(c.vm);
    if !IsTable(flags + 0x400 * page) {
      EntryIsLeaf(c, flags, page);
    } else {
      EntryIsTable(c, flags, page);
      NothingAllowed(c, access, supervisor);
      TableAllowsNothing(flags, page, c, access, supervisor);
    }
  }

  lemma NothingAllowed(c: Csrs, access: Access, supervisor: bool)
    ensures !Allows(0, c.pum, c.mxr, access, supervisor)
  {}

  lemma TopPpn(flags: Byte, page: nat)
    ensures Ppn(flags + 0x400 * page) == page
  {
    DivModUnique(flags + 0x400 * page, 0x400, page, flags);
  }

  lemma EmptyPte(mem: Memory, vm: Vm, a: int)
    requires IsPte(mem, vm, a) && PteFlags(mem, vm, a) == 0
    ensures !IsTable(Pte(mem, vm, a))
    ensures mem[a - DRAM_BASE] == 0
  {
    hide IsTable, PteRest;
    EmptyFlags(PteRest(mem, vm, a));
  }

  lemma TableAllowsNothing(flags: Byte, page: nat, c: Csrs, access: Access, supervisor: bool)
    requires IsTable(flags + 0x400 * page)
    ensures !Allows(flags, c.pum, c.mxr, access, supervisor)
  {
    assert flags + 0x400 * page == flags + 0x100 * (4 * page);
    PermitsIsAllows(c, flags, 4 * page, access, supervisor);
  }

  /** The walk for the first page ends at that entry. */
  lemma TopWalk(c: Csrs, flags: Byte, page: nat, access: Access, supervisor: bool)
    requires 0x80000 <= c.sptbr % W52 < W52 - 1 && (page == 0x80000 || page == 0x80001)
    requires flags % 0x40 == if supervisor then 0x0f else 0x1f
    ensures var root := c.sptbr % W52;
            var l := Leaf(root * PGSIZE + TopOffset(c.vm), 0, page);
            && Walk(c, RootMemory(c.vm, root, flags, page), DRAM_BASE, access, supervisor) == Some(l)
            && PageOf(c.vm, l, DRAM_BASE) == page
  {
    hide RootMemory, Pte, Permits, Ppn, IsTable, Index, PteAddr, Canonical, Or;
    var root := c.sptbr % W52;
    TopIndex(c.vm, root);
    TopPte(c.vm, root, flags, page);
    TopFlags(c, flags, page, access, supervisor);
    TopPage(c.vm, page);
  }

  // ----- one data entry for two maps -----

  /** Fetches and loads of one address that both end in memory end in one place. */
  ghost predicate OneAddress(p: Proc) {
    forall mem: Memory, a: nat ::
      InMem(mem, Translate(p, mem, a, FETCH)) && InMem(mem, Translate(p, mem, a, LOAD)) ==>
      Translate(p, mem, a, FETCH) == Translate(p, mem, a, LOAD)
  }

  /** There can be memory where the root table is. */
  predicate RootCanBeInMemory(p: Proc) { p.Proc? && 0x80000 <= p.csrs.sptbr % W52 < W52 - 1 }

  lemma RootOutside(p: Proc, mem: Memory, a: nat, access: Access)
    requires p.Proc? && !RootCanBeInMemory(p) && Mode(p, access) != PRV_M
    ensures Translate(p, mem, a, access).None?
  {
    hide Pte, Permits, Ppn, IsTable, Index, PteAddr, Canonical, PageOf, WithOffset;
    var root := p.csrs.sptbr % W52;
    var e := PteAddr(p.csrs.vm, root, Index(p.csrs.vm, a, 0));
    EndOfMemory(mem, root, e);
  }

  lemma EndOfMemory(mem: Memory, root: nat, e: nat)
    requires root < 0x80000 || root == W52 - 1
    requires PGSIZE * root <= e < PGSIZE * root + PGSIZE
    ensures !IsMem(mem, e)
  {}

  /** Through a one-entry table the first page of memory is the second one. */
  lemma TopTranslate(p: Proc, access: Access)
    requires RootCanBeInMemory(p) && Mode(p, access) != PRV_M
    ensures var flags := if Mode(p, access) == PRV_S then 0x0f else 0x1f;
            Translate(p, RootMemory(p.csrs.vm, p.csrs.sptbr % W52, flags, 0x80001), DRAM_BASE, access) ==
            Some(DRAM_BASE + PGSIZE)
  {
    hide RootMemory, Walk, PageOf, WithOffset;
    var flags := if Mode(p, access) == PRV_S then 0x0f else 0x1f;
    TopWalk(p.csrs, flags, 0x80001, access, Mode(p, access) == PRV_S);
    OffsetIsAdded(0x80001, DRAM_BASE);
  }

  /** Machine mode with MPRV set and supervisor mode in MPP: an input for which the shared entry is wrong. */
  lemma MprvMayPart(vm: Vm)
    ensures var p := Proc(false, PRV_M, true, PRV_S, false, false, Csrs(vm, 0x80000, false, false));
            var mem := RootMemory(vm, 0x80000, 0x0f, 0x80001);
            && !OneMap(p)
            && InMem(mem, Translate(p, mem, DRAM_BASE, FETCH)) && Translate(p, mem, DRAM_BASE, FETCH).value == DRAM_BASE
            && InMem(mem, Translate(p, mem, DRAM_BASE, LOAD))
            && Translate(p, mem, DRAM_BASE, LOAD).value == DRAM_BASE + PGSIZE
  {
    hide RootMemory, Walk, PageOf, WithOffset;
    RootMemorySize(vm, 0x80000, 0x0f, 0x80001);
    TopTranslate(Proc(false, PRV_M, true, PRV_S, false, false, Csrs(vm, 0x80000, false, false)), LOAD);
  }

  /** The memory for which fetches and loads part. */
  lemma TwoMapsPart(p: Proc)
    requires RootCanBeInMemory(p) && !OneMap(p)
    ensures !OneAddress(p)
  {
    hide Walk, PageOf, WithOffset, RootMemory;
    var x := if Mode(p, FETCH) == PRV_M then LOAD else FETCH;
    var root := p.csrs.sptbr % W52;
    var mem := RootMemory(p.csrs.vm, root, if Mode(p, x) == PRV_S then 0x0f else 0x1f, 0x80001);
    TopTranslate(p, x);
    RootMemorySize(p.csrs.vm, root, if Mode(p, x) == PRV_S then 0x0f else 0x1f, 0x80001);
    var y := if x == LOAD then FETCH else LOAD;
    assert Translate(p, mem, DRAM_BASE, y) == Some(DRAM_BASE);
    assert InMem(mem, Translate(p, mem, DRAM_BASE, FETCH)) && InMem(mem, Translate(p, mem, DRAM_BASE, LOAD));
  }

  lemma RootMemorySize(vm: Vm, root: nat, flags: Byte, page: nat)
    requires 0x80000 <= root < W52 - 1 && (page == 0x80000 || page == 0x80001)
    ensures |RootMemory(vm, root, flags, page)| >= 2 * PGSIZE
  {
    PagesFit(root);
  }

  /**
   The shared data entry is safe exactly for processors whose fetches and data accesses go through one map, but for
   those whose root table cannot be in memory, where no walk succeeds. With MPRV set and bare or machine mode on one
   side only it is not.
   */
  lemma OneAddressExactlyWhen(p: Proc)
    ensures OneAddress(p) <==> OneMap(p) || !RootCanBeInMemory(p)
  {
    hide Walk, PageOf, WithOffset;
    if OneMap(p) {
      forall mem: Memory, a: nat | InMem(mem, Translate(p, mem, a, FETCH)) && InMem(mem, Translate(p, mem, a, LOAD))
        ensures Translate(p, mem, a, FETCH) == Translate(p, mem, a, LOAD)
      {
        TranslateAnyAccess(p, mem, a, FETCH, LOAD);
      }
    } else if !RootCanBeInMemory(p) {
      forall mem: Memory, a: nat
        ensures !(InMem(mem, Translate(p, mem, a, FETCH)) && InMem(mem, Translate(p, mem, a, LOAD)))
      {
        RootOutside(p, mem, a, if Mode(p, FETCH) == PRV_M then LOAD else FETCH);
      }
    } else {
      TwoMapsPart(p);
    }
  }

  /** After a fetch and a load have missed on a page, the fetch hits, and its pointer is that of the load. */
  lemma SharedEntry(p: Proc, mem: Memory, t: Entries, a: Reg, check: bool)
    requires WellFormed(t)
    requires InMem(mem, Translate(p, mem, a, FETCH)) && InMem(mem, Translate(p, mem, a, LOAD))
    ensures var f, l := Translate(p, mem, a, FETCH).value, Translate(p, mem, a, LOAD).value;
            var t' := Refilled(Refilled(t, a, f - DRAM_BASE, FETCH, check), a, l - DRAM_BASE, LOAD, check);
            && Hit(t', FETCH, a) && t'.data[Slot(a)] + a == l - DRAM_BASE
            && (t'.data[Slot(a)] + a == f - DRAM_BASE <==> f == l)
  {
    TagFacts(a / PGSIZE);
  }

  // ----- a dirty bit that is cleared behind a valid tag -----

  /** A processor in supervisor mode whose root table is the first page of memory. */
  function Supervisor(vm: Vm): Proc { Proc(false, PRV_S, false, 0, false, false, Csrs(vm, 0x80000, false, false)) }

  /**
   A page maps its own table, with A and D set. When a store clears the two bits in its own entry, every translation is
   still the same, but `translate` would set them again for a store to any address of the page.
   */
  lemma DirtyMayBeCleared(vm: Vm, d: nat)
    requires d < PGSIZE
    ensures var p, m, o := Supervisor(vm), RootMemory(vm, 0x80000, 0xcf, 0x80000), TopOffset(vm);
            var a := DRAM_BASE + d;
            && o + 8 <= |m| && m[o + 7] == 0
            && Translate(p, m, a, STORE) == Some(a) && Settled(p, m, a, STORE)
            && SameTranslations(p, m, p, m[o := 0x0f]) && Translate(p, m[o := 0x0f], a, STORE) == Some(a)
            && !Settled(p, m[o := 0x0f], a, STORE)
  {
    hide RootMemory, Walk, PageOf, WithOffset, TopOffset, Settled, Similar, BitsSet;
    var p, m, o := Supervisor(vm), RootMemory(vm, 0x80000, 0xcf, 0x80000), TopOffset(vm);
    var a := DRAM_BASE + d;
    TopBytes(vm, 0x80000, 0xcf, 0x80000);
    var n: Memory := m[o := 0x0f];
    var l := Leaf(DRAM_BASE + o, 0, 0x80000);
    TopWalk(p.csrs, 0xcf, 0x80000, STORE, true);
    FirstPage(d);
    SamePageWalk(p.csrs, m, a, DRAM_BASE, STORE, true);
    SamePageOf(vm, l, a, DRAM_BASE);
    OffsetIsAdded(0x80000, a);
    FlagsCleared(vm, m, o);
    SimilarIsSame(p, m, n);
    SimilarWalk(p.csrs, m, n, a, STORE, true);
    BitsOfFlags();
    SettledExactlyWhen(p, m, a, STORE);
    SettledExactlyWhen(p, n, a, STORE);
  }

  lemma FirstPage(d: nat)
    requires d < PGSIZE
    ensures (DRAM_BASE + d) / PGSIZE == DRAM_BASE / PGSIZE == 0x80000 && (DRAM_BASE + d) % PGSIZE == d
  {}

  lemma BitsOfFlags()
    ensures BitsSet(0xcf, STORE) && !BitsSet(0x0f, STORE)
  {}

  lemma HitAfterRefill(t: Entries, a: Reg, host: int, access: Access, check: bool)
    requires WellFormed(t)
    ensures Hit(Refilled(t, a, host, access, check), access, a)
  {
    TagFacts(a / PGSIZE);
  }

  lemma HitOnPage(t: Entries, access: Access, a: Reg, b: Reg)
    requires WellFormed(t) && a / PGSIZE == b / PGSIZE
    ensures Hit(t, access, a) == Hit(t, access, b)
  {}

  lemma NothingChanged(p: Proc, mem: Memory)
    ensures SameTranslations(p, mem, p, mem)
  {}

  /** A store of one byte, without triggers, when there is no bit to set or the store hits. */
  method StoreByte(mmu: Mmu, addr: Reg, x: Byte)
    requires mmu.Valid() && !mmu.stale && InMem(mmu.mem, Translate(mmu.proc, mmu.mem, addr, STORE))
    requires Settled(mmu.proc, mmu.mem, addr, STORE) || Hit(mmu.Now(), STORE, addr)
    modifies mmu`mem, mmu`earned, mmu`stale, mmu`cleared, mmu`matchedTrigger
    modifies mmu.tlbInsnTag, mmu.tlbLoadTag, mmu.tlbStoreTag, mmu.tlbData
    ensures mmu.Valid() && Hit(mmu.Now(), STORE, addr)
    ensures mmu.mem == old(mmu.mem[Translate(mmu.proc, mmu.mem, addr, STORE).value - DRAM_BASE := x])
    ensures mmu.stale ==> !SameTranslations(mmu.proc, old(mmu.mem), mmu.proc, mmu.mem)
  {
    hide Translate, TranslateMem, SameTranslations, Hit, Refilled, Gained, Agree, HostRight, Coherent, Marked, Earned;
    ghost var t, u := mmu.Now(), Translate(mmu.proc, mmu.mem, addr, STORE);
    HitAfterRefill(t, addr, u.value - DRAM_BASE, STORE, mmu.Check(STORE));
    var r := mmu.Store(addr, [x], false, false, NoMatch);
  }

  /**
   Two stores of a processor through such a page. The first one clears A and D behind the tag it makes valid. The
   second one hits, at another address of the page: the TLB is not stale, and D stays clear where `translate` sets it.
   */
  method StoreWithoutDirty(vm: Vm) returns (mmu: Mmu)
    ensures fresh(mmu) && mmu.Valid() && mmu.proc == Supervisor(vm)
    ensures var m, o := RootMemory(vm, 0x80000, 0xcf, 0x80000), TopOffset(vm);
            var b := DRAM_BASE + o + 7;
            && o < |m| && mmu.mem == m[o := 0x0f] && !mmu.stale && mmu.cleared && Hit(mmu.Now(), STORE, b)
            && !Settled(mmu.proc, mmu.mem, b, STORE)
  {
    hide Translate, SameTranslations, Hit, RootMemory, TopOffset, Agree, HostRight, Coherent, Marked, Earned, Settled;
    var p, m, o := Supervisor(vm), RootMemory(vm, 0x80000, 0xcf, 0x80000), TopOffset(vm);
    var a, b := DRAM_BASE + o, DRAM_BASE + o + 7;
    mmu := new Mmu(p, m);
    DirtyMayBeCleared(vm, o);
    DirtyMayBeCleared(vm, o + 7);
    FirstPage(o);
    FirstPage(o + 7);
    StoreByte(mmu, a, 0x0f);
    HitOnPage(mmu.Now(), STORE, a, b);
    NothingChanged(p, mmu.mem);
    assert mmu.mem[o + 7 := 0] == mmu.mem;
    StoreByte(mmu, b, 0);
    mmu.HitIsEarned(b, STORE);
  }

  lemma FlagsCleared(vm: Vm, m: Memory, o: nat)
    requires o + 8 <= |m| && o % 8 == 0 && m[o] == 0xcf
    ensures Similar(m, m[o := 0x0f], vm)
  {
    hide PteRest;
    var n: Memory := m[o := 0x0f];
    forall q | IsPte(m, vm, q)
      ensures PteFlags(m, vm, q) % 0x40 == PteFlags(n, vm, q) % 0x40 && PteRest(m, vm, q) == PteRest(n, vm, q)
    {
      EntryCleared(vm, m, n, o, q);
    }
  }

  lemma EntryCleared(vm: Vm, m: Memory, n: Memory, o: nat, q: int)
    requires o < |m| && o % 8 == 0 && n == m[o := 0x0f] && IsPte(m, vm, q)
    ensures PteRest(m, vm, q) == PteRest(n, vm, q)
  {
    var k := q - DRAM_BASE;
    Aligned(vm, k);
    Apart(k, o, PteSize(vm));
  }

  lemma Aligned(vm: Vm, k: int)
    requires (k + DRAM_BASE) % PteSize(vm) == 0
    ensures k % PteSize(vm) == 0
  {}

  lemma Apart(k: nat, o: nat, size: nat)
    requires (size == 4 || size == 8) && k % size == 0 && o % 8 == 0
    ensures o <= k || k + size <= o
  {
    assert o % size == 0;
    if k < o < k + size {
      DivModUnique(o, size, k / size, o - k);
    }
  }
}
