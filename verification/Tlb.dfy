/**
 The software TLB of `mmu_t`: three tag arrays that share one array of host offsets, and the load, store
 and fetch paths that use and fill them.
 */
module Tlb {
  import opened Numbers
  import opened PageWalk
  import opened Wrappers

  // ----- translation -----

  const PRV_S := 1
  const PRV_M := 3

  /** The processor state that translation depends on; the debug port has no processor. */
  datatype Proc =
    | NoProc
    | Proc(xlen32: bool, prv: nat, mprv: bool, mpp: nat, debugCause: bool, bare: bool, csrs: Csrs)

  /** The mode `translate` uses for an access. */
  function Mode(p: Proc, access: Access): nat
    requires p.Proc?
  {
    var mode := if access != FETCH && !p.debugCause && p.mprv then p.mpp else p.prv;
    if p.bare then PRV_M else mode
  }

  /** `translate`; `None` is the return value -1 of a failed walk. */
  function Translate(p: Proc, mem: Memory, addr: nat, access: Access): Option<nat> {
    if p.NoProc? then Some(addr)
    else if Mode(p, access) == PRV_M then Some(addr % (if p.xlen32 then 0x1_0000_0000 else W64))
    else match Walk(p.csrs, mem, addr, access, Mode(p, access) == PRV_S)
      case None => None
      case Some(l) => Some(WithOffset(PageOf(p.csrs.vm, l, addr), addr))
  }

  /** The memory after `translate`. */
  function TranslateMem(p: Proc, mem: Memory, addr: nat, access: Access): (m: Memory)
    ensures |m| == |mem|
  {
    if p.NoProc? || Mode(p, access) == PRV_M then mem
    else WalkMem(p.csrs, mem, addr, access, Mode(p, access) == PRV_S)
  }

  /** A translation that ends in memory. */
  predicate InMem(mem: Memory, t: Option<nat>) { t.Some? && IsMem(mem, t.value) }

  /** Fetches and data accesses both go through the page tables, or neither does. */
  predicate OneMap(p: Proc) { p.Proc? ==> (Mode(p, FETCH) == PRV_M <==> Mode(p, LOAD) == PRV_M) }

  ghost predicate SameTranslations(p: Proc, m: Memory, q: Proc, n: Memory) {
    |m| == |n| && forall a: nat, x: Access :: Translate(p, m, a, x) == Translate(q, n, a, x)
  }

  /** The accessed and dirty bits one translation sets change no other. */
  lemma TranslateIsTransparent(p: Proc, mem: Memory, addr: nat, access: Access)
    ensures SameTranslations(p, mem, p, TranslateMem(p, mem, addr, access))
  {
    hide Walk, WalkMem, PageOf, WithOffset;
    if p.Proc? && Mode(p, access) != PRV_M {
      forall a: nat, x: Access
        ensures Translate(p, mem, a, x) == Translate(p, TranslateMem(p, mem, addr, access), a, x)
      {
        AccessedAndDirtyAreTransparent(p.csrs, mem, addr, access, Mode(p, access) == PRV_S,
                                       p.csrs, a, x, Mode(p, x) == PRV_S);
      }
    }
  }

  /** Within a page, translation keeps the offset. */
  lemma TranslateWithinPage(p: Proc, mem: Memory, a: nat, access: Access)
    ensures var t, u := Translate(p, mem, a, access), Translate(p, mem, a / PGSIZE * PGSIZE, access);
            && t.Some? == u.Some?
            && (u.Some? ==> u.value % PGSIZE == 0 && t.value == u.value + a % PGSIZE)
  {
    hide Walk, PageOf, WithOffset;
    var b := a / PGSIZE * PGSIZE;
    if p.Proc? && Mode(p, access) != PRV_M {
      SamePageWalk(p.csrs, mem, a, b, access, Mode(p, access) == PRV_S);
      match Walk(p.csrs, mem, a, access, Mode(p, access) == PRV_S)
      case None =>
      case Some(l) =>
        var vm := p.csrs.vm;
        assert PageOf(vm, l, a) == PageOf(vm, l, b) by { SamePageOf(vm, l, a, b); }
        OffsetIsAdded(PageOf(vm, l, a), a);
        OffsetIsAdded(PageOf(vm, l, b), b);
    } else {
      ModWithinPage(a);
    }
  }

  lemma SamePageOf(vm: Vm, l: Leaf, a: nat, b: nat)
    requires l.level < Levels(vm) && a / PGSIZE == b / PGSIZE
    ensures PageOf(vm, l, a) == PageOf(vm, l, b)
  {}

  lemma ModWithinPage(a: nat)
    ensures var b := a / PGSIZE * PGSIZE;
            && a == b + a % PGSIZE
            && b % W32 % PGSIZE == 0 && a % W32 == b % W32 + a % PGSIZE
            && b % W64 % PGSIZE == 0 && a % W64 == b % W64 + a % PGSIZE
            && b % PGSIZE == 0
  {
    var v, o := a / PGSIZE, a % PGSIZE;
    PageAndOffset(a);
    ModOfPages32(v, o);
    ModOfPages32(v, 0);
    ModOfPages64(v, o);
    ModOfPages64(v, 0);
    PagesAreAligned(v);
    PagesAreAligned(v % 0x10_0000);
    PagesAreAligned(v % W52);
  }

  lemma PageAndOffset(a: nat)
    ensures a == a / PGSIZE * PGSIZE + a % PGSIZE
  {}

  lemma PagesAreAligned(k: nat)
    ensures k * PGSIZE % PGSIZE == 0
  {
    DivModUnique(k * PGSIZE, PGSIZE, k, 0);
  }

  lemma ModOfPages32(v: nat, o: nat)
    requires o < PGSIZE
    ensures (v * PGSIZE + o) % W32 == v % 0x10_0000 * PGSIZE + o
  {
    var k, r := v / 0x10_0000, v % 0x10_0000;
    assert v == k * 0x10_0000 + r;
    DivModUnique(v * PGSIZE + o, W32, k, r * PGSIZE + o);
  }

  lemma ModOfPages64(v: nat, o: nat)
    requires o < PGSIZE
    ensures (v * PGSIZE + o) % W64 == v % W52 * PGSIZE + o
  {
    var k, r := v / W52, v % W52;
    assert v == k * W52 + r;
    DivModUnique(v * PGSIZE + o, W64, k, r * PGSIZE + o);
  }

  /** Through one map, all accesses that succeed give the same address. */
  lemma TranslateAnyAccess(p: Proc, mem: Memory, a: nat, x: Access, y: Access)
    requires OneMap(p) && Translate(p, mem, a, x).Some? && Translate(p, mem, a, y).Some?
    ensures Translate(p, mem, a, x) == Translate(p, mem, a, y)
  {
    hide FindLeaf, PageOf, WithOffset;
    if p.Proc? && Mode(p, x) != PRV_M {
      LeafOfAnyAccess(p.csrs, mem, a, x, Mode(p, x) == PRV_S, y, Mode(p, y) == PRV_S, p.csrs.sptbr % W52, 0);
    }
  }

  // ----- the TLB as a value -----

  const TLB_ENTRIES := 256
  /** `1 << 63`: this entry must check triggers before an access. */
  const TLB_CHECK_TRIGGERS := 0x8000_0000_0000_0000
  /** -1, as `flush_tlb` leaves it. */
  const INVALID := W64 - 1

  type Reg = x: nat | x < W64

  datatype Entries = Entries(insn: seq<Reg>, load: seq<Reg>, store: seq<Reg>, data: seq<int>)

  predicate WellFormed(t: Entries) { |t.insn| == |t.load| == |t.store| == |t.data| == TLB_ENTRIES }

  function TagsFor(t: Entries, access: Access): seq<Reg> {
    match access case FETCH => t.insn case LOAD => t.load case STORE => t.store
  }

  function Tag(t: Entries, access: Access, idx: nat): Reg
    requires WellFormed(t) && idx < TLB_ENTRIES
  {
    TagsFor(t, access)[idx]
  }

  function Slot(addr: nat): (idx: nat)
    ensures idx < TLB_ENTRIES
  {
    addr / PGSIZE % TLB_ENTRIES
  }

  /** The page a tag names. */
  function PageIn(tag: Reg): nat { tag % TLB_CHECK_TRIGGERS }

  /** The tag matches the address, with or without the trigger flag. */
  predicate Hit(t: Entries, access: Access, addr: nat)
    requires WellFormed(t)
  {
    PageIn(Tag(t, access, Slot(addr))) == addr / PGSIZE
  }

  /** What `refill_tlb` makes of a tag of another access: gone, unless it names the same page. */
  function Kept(tag: Reg, vpn: nat): Reg { if PageIn(tag) != vpn then INVALID else tag }

  function Refilled(t: Entries, vaddr: Reg, host: int, access: Access, check: bool): (t': Entries)
    requires WellFormed(t)
    ensures WellFormed(t')
  {
    var idx, vpn := Slot(vaddr), vaddr / PGSIZE;
    var tag := if check then vpn + TLB_CHECK_TRIGGERS else vpn;
    Entries(t.insn[idx := if access == FETCH then tag else Kept(t.insn[idx], vpn)],
            t.load[idx := if access == LOAD then tag else Kept(t.load[idx], vpn)],
            t.store[idx := if access == STORE then tag else Kept(t.store[idx], vpn)],
            t.data[idx := host - vaddr])
  }

  /** All valid tags at an index name the same page, and that page belongs there. */
  ghost predicate Agree(t: Entries) {
    && WellFormed(t)
    && (forall idx, x: Access {:trigger Tag(t, x, idx)} :: 0 <= idx < TLB_ENTRIES && Tag(t, x, idx) != INVALID ==>
          PageIn(Tag(t, x, idx)) < W52 && PageIn(Tag(t, x, idx)) % TLB_ENTRIES == idx)
    && (forall idx, x: Access, y: Access {:trigger Tag(t, x, idx), Tag(t, y, idx)} ::
          0 <= idx < TLB_ENTRIES && Tag(t, x, idx) != INVALID && Tag(t, y, idx) != INVALID ==>
          PageIn(Tag(t, x, idx)) == PageIn(Tag(t, y, idx)))
  }

  /** What a valid tag promises even when page tables have changed since: a page of host memory. */
  ghost predicate HostRight(t: Entries, size: nat) {
    WellFormed(t) &&
    forall idx, x: Access {:trigger Tag(t, x, idx)} :: 0 <= idx < TLB_ENTRIES && Tag(t, x, idx) != INVALID ==>
      HostPage(t.data[idx] + PageIn(Tag(t, x, idx)) * PGSIZE, size)
  }

  predicate HostPage(h: int, size: nat) { 0 <= h < size && h % PGSIZE == 0 }

  lemma HostAfterRefill(t: Entries, vaddr: Reg, host: int, access: Access, check: bool, size: nat)
    requires Agree(t) && HostRight(t, size) && HostPage(host - vaddr % PGSIZE, size)
    ensures HostRight(Refilled(t, vaddr, host, access, check), size)
  {
    TagFacts(vaddr / PGSIZE);
    hide PageIn, HostPage;
    var t', idx, vpn := Refilled(t, vaddr, host, access, check), Slot(vaddr), vaddr / PGSIZE;
    forall i, x: Access | 0 <= i < TLB_ENTRIES
      ensures i != idx ==> Tag(t', x, i) == Tag(t, x, i)
      ensures i == idx ==> Tag(t', x, i) == INVALID || PageIn(Tag(t', x, i)) == vpn
    {}
    assert host - vaddr + vpn * PGSIZE == host - vaddr % PGSIZE;
  }

  /** A valid tag stands for a translation of that access that succeeds and ends in memory, at the offset stored. */
  ghost predicate EntryRight(p: Proc, mem: Memory, t: Entries, x: Access, idx: nat)
    requires WellFormed(t) && idx < TLB_ENTRIES
  {
    Tag(t, x, idx) != INVALID ==>
      var page := PageIn(Tag(t, x, idx)) * PGSIZE;
      var u := Translate(p, mem, page, x);
      InMem(mem, u) && u.value % PGSIZE == 0 && t.data[idx] == u.value - DRAM_BASE - page
  }

  ghost predicate Coherent(p: Proc, mem: Memory, t: Entries) {
    WellFormed(t) && Agree(t) && forall idx, x: Access :: 0 <= idx < TLB_ENTRIES ==> EntryRight(p, mem, t, x, idx)
  }

  lemma TagFacts(vpn: nat)
    requires vpn < W52
    ensures PageIn(vpn) == vpn && PageIn(vpn + TLB_CHECK_TRIGGERS) == vpn
    ensures vpn != INVALID && vpn + TLB_CHECK_TRIGGERS != INVALID && PageIn(INVALID) >= W52
  {}

  lemma AgreeAfterRefill(t: Entries, vaddr: Reg, host: int, access: Access, check: bool)
    requires Agree(t)
    ensures Agree(Refilled(t, vaddr, host, access, check))
  {
    TagFacts(vaddr / PGSIZE);
    hide PageIn;
    var t', idx, vpn := Refilled(t, vaddr, host, access, check), Slot(vaddr), vaddr / PGSIZE;
    forall i, x: Access | 0 <= i < TLB_ENTRIES
      ensures i != idx ==> Tag(t', x, i) == Tag(t, x, i)
      ensures i == idx ==> Tag(t', x, i) == INVALID || PageIn(Tag(t', x, i)) == vpn
    {}
  }

  /** Refilling with what `translate` gives keeps the TLB coherent, when all accesses go through one map. */
  lemma RefillIsCoherent(p: Proc, mem: Memory, t: Entries, vaddr: Reg, access: Access, check: bool)
    requires OneMap(p) && Coherent(p, mem, t) && InMem(mem, Translate(p, mem, vaddr, access))
    ensures Coherent(p, mem, Refilled(t, vaddr, Translate(p, mem, vaddr, access).value - DRAM_BASE, access, check))
  {
    hide PageIn, Translate, Agree, OneMap;
    var u := Translate(p, mem, vaddr, access).value;
    var t' := Refilled(t, vaddr, u - DRAM_BASE, access, check);
    var idx, vpn := Slot(vaddr), vaddr / PGSIZE;
    AgreeAfterRefill(t, vaddr, u - DRAM_BASE, access, check);
    TagFacts(vpn);
    TranslateWithinPage(p, mem, vaddr, access);
    PageStartInMem(mem, u, vaddr);
    forall i, x: Access | 0 <= i < TLB_ENTRIES ensures EntryRight(p, mem, t', x, i) {
      assert EntryRight(p, mem, t, x, i);
      if i != idx {
        assert Tag(t', x, i) == Tag(t, x, i) && t'.data[i] == t.data[i];
      } else if Tag(t', x, i) != INVALID {
        assert PageIn(Tag(t', x, i)) == vpn;
        if x != access {
          assert Tag(t', x, i) == Tag(t, x, i);
          TranslateAnyAccess(p, mem, vpn * PGSIZE, x, access);
        }
      }
    }
  }

  lemma PageStartInMem(mem: Memory, u: nat, vaddr: nat)
    requires IsMem(mem, u) && u >= vaddr % PGSIZE && (u - vaddr % PGSIZE) % PGSIZE == 0
    ensures IsMem(mem, u - vaddr % PGSIZE)
  {}

  /** A hit in a coherent TLB leads where `translate` would: the fast path is the slow path. */
  lemma HitIsTranslation(p: Proc, mem: Memory, t: Entries, addr: Reg, access: Access)
    requires Coherent(p, mem, t) && Hit(t, access, addr)
    ensures InMem(mem, Translate(p, mem, addr, access))
    ensures t.data[Slot(addr)] + addr == Translate(p, mem, addr, access).value - DRAM_BASE
  {
    hide Translate, Agree, PageIn;
    var idx := Slot(addr);
    TagFacts(addr / PGSIZE);
    assert EntryRight(p, mem, t, access, idx);
    TranslateWithinPage(p, mem, addr, access);
    OffsetInMem(mem, Translate(p, mem, addr / PGSIZE * PGSIZE, access).value, addr);
  }

  lemma OffsetInMem(mem: Memory, u: nat, addr: nat)
    requires IsMem(mem, u) && u % PGSIZE == 0
    ensures IsMem(mem, u + addr % PGSIZE)
  {}

  lemma CoherentIfSame(p: Proc, m: Memory, q: Proc, n: Memory, t: Entries)
    requires Coherent(p, m, t) && SameTranslations(p, m, q, n)
    ensures Coherent(q, n, t)
  {
    hide Translate, Agree;
    forall idx, x: Access | 0 <= idx < TLB_ENTRIES ensures EntryRight(q, n, t, x, idx) {
      assert EntryRight(p, m, t, x, idx);
    }
  }

  // ----- the accessed and dirty bits behind a tag -----

  /** Translating leaves memory as it is: the bits that it would set are set. */
  ghost predicate Settled(p: Proc, mem: Memory, a: nat, access: Access) { TranslateMem(p, mem, a, access) == mem }

  /** Nothing is left to set exactly when no entry is used, or its A is set, and its D for a store. */
  lemma SettledExactlyWhen(p: Proc, mem: Memory, a: nat, access: Access)
    ensures Settled(p, mem, a, access) <==>
            p.NoProc? || Mode(p, access) == PRV_M ||
            match Walk(p.csrs, mem, a, access, Mode(p, access) == PRV_S)
            case None => true
            case Some(l) => BitsSet(mem[l.pteAddr - DRAM_BASE], access)
  {
    hide Walk, WalkMem, BitsSet;
    if p.Proc? && Mode(p, access) != PRV_M {
      WalkIsQuietExactlyWhen(p.csrs, mem, a, access, Mode(p, access) == PRV_S);
    }
  }

  lemma TranslateSettles(p: Proc, mem: Memory, a: nat, access: Access)
    ensures Settled(p, TranslateMem(p, mem, a, access), a, access)
  {
    hide Walk, WalkMem;
    if p.Proc? && Mode(p, access) != PRV_M {
      WalkIsIdempotent(p.csrs, mem, a, access, Mode(p, access) == PRV_S);
    }
  }

  lemma SettledStays(p: Proc, mem: Memory, a: nat, access: Access, b: nat, other: Access)
    requires Settled(p, mem, a, access)
    ensures Settled(p, TranslateMem(p, mem, b, other), a, access)
  {
    hide Walk, WalkMem;
    if p.Proc? && Mode(p, access) != PRV_M && Mode(p, other) != PRV_M {
      QuietStays(p.csrs, mem, a, access, Mode(p, access) == PRV_S, b, other, Mode(p, other) == PRV_S);
    }
  }

  lemma SettledOnPage(p: Proc, mem: Memory, a: nat, b: nat, access: Access)
    requires a / PGSIZE == b / PGSIZE
    ensures TranslateMem(p, mem, a, access) == TranslateMem(p, mem, b, access)
  {
    hide Walk;
    if p.Proc? && Mode(p, access) != PRV_M {
      SamePageWalk(p.csrs, mem, a, b, access, Mode(p, access) == PRV_S);
    }
  }

  /** What a walk has set behind every valid tag is still set. */
  ghost predicate Marked(p: Proc, mem: Memory, t: Entries) {
    WellFormed(t) &&
    forall idx, x: Access {:trigger Tag(t, x, idx)} :: 0 <= idx < TLB_ENTRIES && Tag(t, x, idx) != INVALID ==>
      Settled(p, mem, PageIn(Tag(t, x, idx)) * PGSIZE, x)
  }

  /** Every valid tag stands for one of the translations `w`: of this kind of access, to this page. */
  ghost predicate Earned(w: set<(Access, nat)>, t: Entries) {
    WellFormed(t) &&
    forall idx, x: Access {:trigger Tag(t, x, idx)} :: 0 <= idx < TLB_ENTRIES && Tag(t, x, idx) != INVALID ==>
      (x, PageIn(Tag(t, x, idx))) in w
  }

  lemma MarkedAfterTranslate(p: Proc, mem: Memory, t: Entries, a: nat, access: Access)
    requires Marked(p, mem, t)
    ensures Marked(p, TranslateMem(p, mem, a, access), t)
  {
    hide TranslateMem, Settled, PageIn;
    forall idx, x: Access | 0 <= idx < TLB_ENTRIES && Tag(t, x, idx) != INVALID
      ensures Settled(p, TranslateMem(p, mem, a, access), PageIn(Tag(t, x, idx)) * PGSIZE, x)
    {
      SettledStays(p, mem, PageIn(Tag(t, x, idx)) * PGSIZE, x, a, access);
    }
  }

  /** The tags after a refill: the new one, and old ones. */
  lemma TagsAfterRefill(t: Entries, vaddr: Reg, host: int, access: Access, check: bool, x: Access, i: nat)
    requires WellFormed(t) && i < TLB_ENTRIES
    ensures var t' := Refilled(t, vaddr, host, access, check);
            || Tag(t', x, i) == INVALID || Tag(t', x, i) == Tag(t, x, i)
            || (x == access && PageIn(Tag(t', x, i)) == vaddr / PGSIZE)
  {
    TagFacts(vaddr / PGSIZE);
  }

  lemma MarkedAfterRefill(p: Proc, mem: Memory, t: Entries, vaddr: Reg, host: int, access: Access, check: bool)
    requires Marked(p, mem, t) && Settled(p, mem, vaddr, access)
    ensures Marked(p, mem, Refilled(t, vaddr, host, access, check))
  {
    hide TranslateMem, Settled, PageIn, Refilled;
    var t' := Refilled(t, vaddr, host, access, check);
    SettledOnPage(p, mem, vaddr, vaddr / PGSIZE * PGSIZE, access);
    SameSettled(p, mem, vaddr, vaddr / PGSIZE * PGSIZE, access);
    forall i, x: Access | 0 <= i < TLB_ENTRIES && Tag(t', x, i) != INVALID
      ensures Settled(p, mem, PageIn(Tag(t', x, i)) * PGSIZE, x)
    {
      TagsAfterRefill(t, vaddr, host, access, check, x, i);
    }
  }

  lemma SameSettled(p: Proc, mem: Memory, a: nat, b: nat, access: Access)
    requires TranslateMem(p, mem, a, access) == TranslateMem(p, mem, b, access)
    ensures Settled(p, mem, a, access) <==> Settled(p, mem, b, access)
  {}

  lemma EarnedAfterRefill(w: set<(Access, nat)>, t: Entries, vaddr: Reg, host: int, access: Access, check: bool)
    requires Earned(w, t) && (access, vaddr / PGSIZE) in w
    ensures Earned(w, Refilled(t, vaddr, host, access, check))
  {
    hide PageIn, Refilled;
    var t' := Refilled(t, vaddr, host, access, check);
    forall i, x: Access | 0 <= i < TLB_ENTRIES && Tag(t', x, i) != INVALID
      ensures (x, PageIn(Tag(t', x, i))) in w
    {
      TagsAfterRefill(t, vaddr, host, access, check, x, i);
    }
  }

  /** A hit stands for a translation of that kind of access to that page, and `translate` would set nothing more. */
  lemma HitWasEarned(p: Proc, mem: Memory, t: Entries, w: set<(Access, nat)>, addr: Reg, access: Access)
    requires WellFormed(t) && Hit(t, access, addr)
    ensures Earned(w, t) ==> (access, addr / PGSIZE) in w
    ensures Marked(p, mem, t) ==> Settled(p, mem, addr, access)
  {
    hide TranslateMem, Settled, PageIn;
    TagFacts(addr / PGSIZE);
    SettledOnPage(p, mem, addr, addr / PGSIZE * PGSIZE, access);
    SameSettled(p, mem, addr, addr / PGSIZE * PGSIZE, access);
    assert Tag(t, access, Slot(addr)) != INVALID;
  }

  /** Hitting is matching one of the two forms of the tag. */
  lemma HitExactlyWhen(t: Entries, access: Access, addr: Reg)
    requires WellFormed(t)
    ensures Hit(t, access, addr) <==>
            var tag := Tag(t, access, Slot(addr)); tag == addr / PGSIZE || tag == addr / PGSIZE + TLB_CHECK_TRIGGERS
  {}

  // ----- a store that clears the dirty bit -----

  /** Memories that differ in A and D bits only give the same translations, so such a store goes unnoticed. */
  lemma SimilarIsSame(p: Proc, m: Memory, n: Memory)
    requires p.Proc? && Similar(m, n, p.csrs.vm)
    ensures SameTranslations(p, m, p, n)
  {
    hide Walk, PageOf, WithOffset, Similar;
    forall a: nat, x: Access ensures Translate(p, m, a, x) == Translate(p, n, a, x) {
      SimilarWalk(p.csrs, m, n, a, x, Mode(p, x) == PRV_S);
    }
    SimilarSize(m, n, p.csrs.vm);
  }

  lemma SimilarSize(m: Memory, n: Memory, vm: Vm)
    requires Similar(m, n, vm)
    ensures |m| == |n|
  {}
}
