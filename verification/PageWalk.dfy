/**
 Sv32, Sv39 and Sv48 address translation (RISC-V Privileged Architecture 1.9, sections 4.5 to 4.7) as
 `mmu_t::walk` and `mmu_t::translate` perform it, over a byte-addressed memory, and what the accessed
 and dirty bits that a walk sets do to later walks.
 */
module PageWalk {
  import opened Numbers
  import opened Wrappers

  const PGSIZE := 0x1000
  const DRAM_BASE := 0x8000_0000
  /** Page numbers are 52 bits wide: a 64-bit address without its 12 offset bits. */
  const W52 := 0x10_0000_0000_0000

  datatype Access = LOAD | STORE | FETCH

  datatype Vm = Sv32 | Sv39 | Sv48

  // ----- the parameters of a mode -----

  function Levels(vm: Vm): nat { match vm case Sv32 => 2 case Sv39 => 3 case Sv48 => 4 }

  /** `1 << ptidxbits` */
  function Entries(vm: Vm): nat { if vm.Sv32? then 1024 else 512 }

  function PteSize(vm: Vm): nat { if vm.Sv32? then 4 else 8 }

  /** `1 << ptshift` at level `i`. */
  function Span(vm: Vm, i: nat): nat
    requires i < Levels(vm)
  {
    match vm
    case Sv32 => [0x400, 1][i]
    case Sv39 => [0x4_0000, 0x200, 1][i]
    case Sv48 => [0x800_0000, 0x4_0000, 0x200, 1][i]
  }

  /**
   Bits xlen-1 down to va_bits-1 of `addr`. The mode gives xlen: `validate_vm` (riscv/processor.cc, lines 277-284)
   admits Sv32 with 32 bits only, and the other two with 64 bits only.
   */
  function MaskedMsbs(vm: Vm, addr: nat): nat {
    match vm
    case Sv32 => addr / 0x8000_0000 % 2
    case Sv39 => addr / 0x40_0000_0000 % 0x400_0000
    case Sv48 => addr / 0x8000_0000_0000 % 0x2_0000
  }

  function MsbMask(vm: Vm): nat { match vm case Sv32 => 1 case Sv39 => 0x3ff_ffff case Sv48 => 0x1_ffff }

  predicate Canonical(vm: Vm, addr: nat) { MaskedMsbs(vm, addr) == 0 || MaskedMsbs(vm, addr) == MsbMask(vm) }

  // ----- memory -----

  /** The simulated memory: whole pages from DRAM_BASE up, and not up to the last address. */
  type Memory = m: seq<Byte> | |m| % PGSIZE == 0 && |m| < W64 - DRAM_BASE witness []

  /** `addr_is_mem` */
  predicate IsMem(mem: Memory, addr: int) { DRAM_BASE <= addr < DRAM_BASE + |mem| }

  predicate IsPte(mem: Memory, vm: Vm, addr: int) { IsMem(mem, addr) && addr % PteSize(vm) == 0 }

  function At(mem: Memory, o: nat): (r: nat)
    requires o < |mem|
    ensures r < 0x100
  {
    mem[o]
  }

  /** The little-endian word at `addr`, without its lowest byte. */
  function PteRest(mem: Memory, vm: Vm, addr: int): (r: nat)
    requires IsPte(mem, vm, addr)
  {
    var o := addr - DRAM_BASE;
    var low := At(mem, o + 1) + 0x100 * At(mem, o + 2) + 0x1_0000 * At(mem, o + 3);
    if vm.Sv32? then low
    else low + 0x100_0000 * At(mem, o + 4) + 0x1_0000_0000 * At(mem, o + 5)
             + 0x100_0000_0000 * At(mem, o + 6) + 0x1_0000_0000_0000 * At(mem, o + 7)
  }

  lemma PteRestBound(mem: Memory, vm: Vm, addr: int)
    requires IsPte(mem, vm, addr)
    ensures PteRest(mem, vm, addr) < 0x100_0000_0000_0000
  {}

  function PteFlags(mem: Memory, vm: Vm, addr: int): Byte
    requires IsPte(mem, vm, addr)
  {
    mem[addr - DRAM_BASE]
  }

  function Pte(mem: Memory, vm: Vm, addr: int): (r: nat)
    requires IsPte(mem, vm, addr)
    ensures r < W64
  {
    PteRestBound(mem, vm, addr);
    PteFlags(mem, vm, addr) as int + 0x100 * PteRest(mem, vm, addr)
  }

  // ----- page table entries -----

  /** The bits V, R, W, X, U and G, which are below A and D. */
  function Flags(pte: nat): nat { pte % 0x40 }

  predicate V(pte: nat) { Flags(pte) % 2 == 1 }
  predicate R(pte: nat) { Flags(pte) / 2 % 2 == 1 }
  predicate W(pte: nat) { Flags(pte) / 4 % 2 == 1 }
  predicate X(pte: nat) { Flags(pte) / 8 % 2 == 1 }
  predicate U(pte: nat) { Flags(pte) / 16 % 2 == 1 }

  /** `PTE_TABLE` */
  predicate IsTable(pte: nat) { Flags(pte) % 16 == 1 }

  function Ppn(pte: nat): nat { pte / 0x400 }

  /** The registers a walk depends on. */
  datatype Csrs = Csrs(vm: Vm, sptbr: nat, pum: bool, mxr: bool)

  /** What the three tests on a leaf let through. */
  predicate Permits(c: Csrs, pte: nat, access: Access, supervisor: bool) {
    && !(if U(pte) then supervisor && c.pum else !supervisor)
    && !(!V(pte) || (!R(pte) && W(pte)))
    && !(match access
         case FETCH => !X(pte)
         case LOAD => !R(pte) && !(c.mxr && X(pte))
         case STORE => !(R(pte) && W(pte)))
  }

  // ----- the walk -----

  /** The part of the address that selects the entry of level `i`. */
  function Index(vm: Vm, addr: nat, i: nat): (r: nat)
    requires i < Levels(vm)
    ensures r < Entries(vm)
  {
    addr / (PGSIZE * Span(vm, i)) % Entries(vm)
  }

  /** `base + idx * ptesize`, where `base` is the start of page `page`. */
  function PteAddr(vm: Vm, page: nat, idx: nat): (r: nat)
    requires idx < Entries(vm)
    ensures r % PteSize(vm) == 0 && PGSIZE * page <= r < PGSIZE * page + PGSIZE
  {
    if vm.Sv32? then
      var r := 4 * (1024 * page + idx);
      assert r % 4 == 0;
      r
    else
      var r := 8 * (512 * page + idx);
      assert r % 8 == 0;
      r
  }

  /** Where a walk ends: the address of the leaf entry, its level and its page number. */
  datatype Leaf = Leaf(pteAddr: nat, level: nat, ppn: nat)

  predicate IsLeafOf(mem: Memory, vm: Vm, l: Leaf) {
    l.level < Levels(vm) && IsPte(mem, vm, l.pteAddr) && l.ppn < W64
  }

  /** The loop of the walk from level `i`, with the table at page `page`. */
  function FindLeaf(c: Csrs, mem: Memory, addr: nat, access: Access, supervisor: bool, page: nat,
                    i: nat): (r: Option<Leaf>)
    requires i <= Levels(c.vm)
    ensures r.Some? ==> IsLeafOf(mem, c.vm, r.value) && r.value.level >= i
    decreases Levels(c.vm) - i
  {
    if i == Levels(c.vm) then None
    else
      var a := PteAddr(c.vm, page, Index(c.vm, addr, i));
      if !IsMem(mem, a) then None
      else
        var pte := Pte(mem, c.vm, a);
        if IsTable(pte) then FindLeaf(c, mem, addr, access, supervisor, Ppn(pte) % W52, i + 1)
        else if Permits(c, pte, access, supervisor) then Some(Leaf(a, i, Ppn(pte)))
        else None
  }

  /** The whole walk; `None` is the return value -1. */
  function Walk(c: Csrs, mem: Memory, addr: nat, access: Access, supervisor: bool): (r: Option<Leaf>)
    ensures r.Some? ==> IsLeafOf(mem, c.vm, r.value)
  {
    if Canonical(c.vm, addr) then FindLeaf(c, mem, addr, access, supervisor, c.sptbr % W52, 0) else None
  }

  /** The page a leaf gives; for a superpage, the low bits of the virtual page number fill in. */
  function PageOf(vm: Vm, l: Leaf, addr: nat): (r: nat)
    requires l.level < Levels(vm)
    ensures r < W52
  {
    var value := Or(l.ppn, addr / PGSIZE % Span(vm, l.level));
    value % W52
  }

  /** The byte with PTE_A set, and PTE_D too for a store. */
  function Touched(b: Byte, access: Access): Byte {
    var a := if b / 0x40 % 2 == 0 then b + 0x40 else b;
    if access == STORE && a / 0x80 % 2 == 0 then a + 0x80 else a
  }

  /** The memory after a walk. The bits set are in the lowest byte of the entry. */
  function WalkMem(c: Csrs, mem: Memory, addr: nat, access: Access, supervisor: bool): (m: Memory)
    ensures |m| == |mem|
  {
    match Walk(c, mem, addr, access, supervisor)
    case None => mem
    case Some(l) =>
      var o := l.pteAddr - DRAM_BASE;
      mem[o := Touched(mem[o], access)]
  }

  // ----- accessed and dirty bits do not matter -----

  /** The entries of `m` and `n` differ in their bits A and D at most. */
  ghost predicate Similar(m: Memory, n: Memory, vm: Vm) {
    && |m| == |n|
    && forall q :: IsPte(m, vm, q) ==>
         PteFlags(m, vm, q) % 0x40 == PteFlags(n, vm, q) % 0x40 && PteRest(m, vm, q) == PteRest(n, vm, q)
  }

  /** No test of the walk looks at A or D. */
  lemma SimilarPte(c: Csrs, f: Byte, g: Byte, rest: nat, access: Access, supervisor: bool)
    requires f % 0x40 == g % 0x40
    ensures var p, q := f + 0x100 * rest, g + 0x100 * rest;
            && Ppn(p) == Ppn(q) && (IsTable(p) <==> IsTable(q))
            && (Permits(c, p, access, supervisor) <==> Permits(c, q, access, supervisor))
  {
    hide Flags, Ppn;
    FlagsOfByte(f, rest);
    FlagsOfByte(g, rest);
    PpnIsAbove(f, rest);
    PpnIsAbove(g, rest);
  }

  lemma FlagsOfByte(f: Byte, rest: nat)
    ensures Flags(f + 0x100 * rest) == f % 0x40
  {
    var l, h := f % 0x40, f / 0x40;
    assert f == l + 0x40 * h;
    ModAdd(l, h + 4 * rest);
  }

  lemma ModAdd(l: nat, h: nat)
    requires l < 0x40
    ensures (l + 0x40 * h) % 0x40 == l
  {}

  lemma PpnIsAbove(f: Byte, rest: nat)
    ensures Ppn(f + 0x100 * rest) == rest / 4
  {}

  lemma {:induction false} SimilarLeaf(c: Csrs, m: Memory, n: Memory, addr: nat, access: Access, supervisor: bool,
                                       page: nat, i: nat)
    requires i <= Levels(c.vm) && Similar(m, n, c.vm)
    ensures FindLeaf(c, m, addr, access, supervisor, page, i) == FindLeaf(c, n, addr, access, supervisor, page, i)
    decreases Levels(c.vm) - i
  {
    hide Permits, Ppn, IsTable, PteRest, PteFlags;
    if i < Levels(c.vm) {
      var a := PteAddr(c.vm, page, Index(c.vm, addr, i));
      if IsMem(m, a) {
        SimilarPte(c, PteFlags(m, c.vm, a), PteFlags(n, c.vm, a), PteRest(m, c.vm, a), access, supervisor);
        SimilarLeaf(c, m, n, addr, access, supervisor, Ppn(Pte(m, c.vm, a)) % W52, i + 1);
      }
    }
  }

  lemma SimilarWalk(c: Csrs, m: Memory, n: Memory, addr: nat, access: Access, supervisor: bool)
    requires Similar(m, n, c.vm)
    ensures Walk(c, m, addr, access, supervisor) == Walk(c, n, addr, access, supervisor)
  {
    SimilarLeaf(c, m, n, addr, access, supervisor, c.sptbr % W52, 0);
  }

  lemma TouchedFacts(b: Byte, access: Access)
    ensures Touched(b, access) % 0x40 == b % 0x40
    ensures Touched(Touched(b, access), access) == Touched(b, access)
  {}

  /** Setting A and D in one entry leaves all entries similar: entries of one mode do not overlap. */
  lemma TouchIsSimilar(m: Memory, vm: Vm, p: nat, access: Access)
    requires IsPte(m, vm, p)
    ensures var o := p - DRAM_BASE; Similar(m, m[o := Touched(m[o], access)], vm)
  {
    var o := p - DRAM_BASE;
    var n: Memory := m[o := Touched(m[o], access)];
    TouchedFacts(m[o], access);
    forall q | IsPte(m, vm, q)
      ensures PteFlags(m, vm, q) % 0x40 == PteFlags(n, vm, q) % 0x40 && PteRest(m, vm, q) == PteRest(n, vm, q)
    {
      var k := q - DRAM_BASE;
    }
  }

  /** A walk changes the result of no later walk in a mode with entries of the same size: not for any address,
      access or privilege, and not for any root or permission bits. */
  lemma AccessedAndDirtyAreTransparent(c: Csrs, mem: Memory, addr: nat, access: Access, supervisor: bool,
                                       c2: Csrs, addr2: nat, access2: Access, supervisor2: bool)
    requires PteSize(c2.vm) == PteSize(c.vm)
    ensures Walk(c2, WalkMem(c, mem, addr, access, supervisor), addr2, access2, supervisor2)
            == Walk(c2, mem, addr2, access2, supervisor2)
  {
    WalkIsSimilar(c, mem, addr, access, supervisor, c2.vm);
    SimilarWalk(c2, mem, WalkMem(c, mem, addr, access, supervisor), addr2, access2, supervisor2);
  }

  lemma WalkIsSimilar(c: Csrs, mem: Memory, addr: nat, access: Access, supervisor: bool, vm: Vm)
    requires PteSize(vm) == PteSize(c.vm)
    ensures Similar(mem, WalkMem(c, mem, addr, access, supervisor), vm)
  {
    match Walk(c, mem, addr, access, supervisor)
    case None =>
    case Some(l) => TouchIsSimilar(mem, vm, l.pteAddr, access);
  }

  /** Repeating a walk leaves memory as it is. */
  lemma WalkIsIdempotent(c: Csrs, mem: Memory, addr: nat, access: Access, supervisor: bool)
    ensures var m := WalkMem(c, mem, addr, access, supervisor);
            WalkMem(c, m, addr, access, supervisor) == m
  {
    var m := WalkMem(c, mem, addr, access, supervisor);
    AccessedAndDirtyAreTransparent(c, mem, addr, access, supervisor, c, addr, access, supervisor);
    match Walk(c, mem, addr, access, supervisor)
    case None =>
    case Some(l) => TouchedFacts(mem[l.pteAddr - DRAM_BASE], access);
  }

  /** The bits that an access needs are set in this byte. */
  predicate BitsSet(b: Byte, access: Access) { b / 0x40 % 2 == 1 && (access == STORE ==> b / 0x80 % 2 == 1) }

  lemma SetIsUntouched(b: Byte, access: Access)
    ensures BitsSet(b, access) <==> Touched(b, access) == b
    ensures BitsSet(Touched(b, access), access)
  {}

  lemma SetStays(b: Byte, access: Access, other: Access)
    requires BitsSet(b, access)
    ensures BitsSet(Touched(b, other), access)
  {}

  /** A walk leaves memory as it is exactly when it fails, or the bits it would set are set. */
  lemma WalkIsQuietExactlyWhen(c: Csrs, mem: Memory, addr: nat, access: Access, supervisor: bool)
    ensures WalkMem(c, mem, addr, access, supervisor) == mem <==>
            match Walk(c, mem, addr, access, supervisor)
            case None => true
            case Some(l) => BitsSet(mem[l.pteAddr - DRAM_BASE], access)
  {
    hide Touched, BitsSet;
    match Walk(c, mem, addr, access, supervisor)
    case None =>
    case Some(l) =>
      var o := l.pteAddr - DRAM_BASE;
      SetIsUntouched(mem[o], access);
      assert mem[o := Touched(mem[o], access)][o] == Touched(mem[o], access);
  }

  /** A walk that would leave memory as it is still would after any other walk. */
  lemma QuietStays(c: Csrs, mem: Memory, addr: nat, access: Access, supervisor: bool, addr2: nat, access2: Access,
                   supervisor2: bool)
    requires WalkMem(c, mem, addr, access, supervisor) == mem
    ensures var m := WalkMem(c, mem, addr2, access2, supervisor2);
            WalkMem(c, m, addr, access, supervisor) == m
  {
    hide Touched, BitsSet;
    var m := WalkMem(c, mem, addr2, access2, supervisor2);
    AccessedAndDirtyAreTransparent(c, mem, addr2, access2, supervisor2, c, addr, access, supervisor);
    WalkIsQuietExactlyWhen(c, mem, addr, access, supervisor);
    WalkIsQuietExactlyWhen(c, m, addr, access, supervisor);
    match Walk(c, mem, addr, access, supervisor)
    case None =>
    case Some(l) => SetStays(mem[l.pteAddr - DRAM_BASE], access, access2);
  }

  // ----- what a translation depends on -----

  /** The access and the privilege decide whether a walk succeeds, not where it ends. */
  lemma {:induction false} LeafOfAnyAccess(c: Csrs, mem: Memory, addr: nat, a: Access, s: bool, b: Access, t: bool,
                                           page: nat, i: nat)
    requires i <= Levels(c.vm)
    requires FindLeaf(c, mem, addr, a, s, page, i).Some? && FindLeaf(c, mem, addr, b, t, page, i).Some?
    ensures FindLeaf(c, mem, addr, a, s, page, i) == FindLeaf(c, mem, addr, b, t, page, i)
    decreases Levels(c.vm) - i
  {
    hide Permits, Pte, Ppn, IsTable;
    var p := PteAddr(c.vm, page, Index(c.vm, addr, i));
    if IsTable(Pte(mem, c.vm, p)) {
      LeafOfAnyAccess(c, mem, addr, a, s, b, t, Ppn(Pte(mem, c.vm, p)) % W52, i + 1);
    }
  }

  /** Addresses of one page take the same way. */
  lemma SameIndices(vm: Vm, a: nat, b: nat)
    requires a / PGSIZE == b / PGSIZE
    ensures Canonical(vm, a) <==> Canonical(vm, b)
    ensures forall i :: 0 <= i < Levels(vm) ==> Index(vm, a, i) == Index(vm, b, i)
  {
    assert a / 0x8000_0000 == a / PGSIZE / 0x8_0000 && b / 0x8000_0000 == b / PGSIZE / 0x8_0000;
    assert a / 0x40_0000_0000 == a / PGSIZE / 0x400_0000 && b / 0x40_0000_0000 == b / PGSIZE / 0x400_0000;
    assert a / 0x8000_0000_0000 == a / PGSIZE / 0x8_0000_0000 && b / 0x8000_0000_0000 == b / PGSIZE / 0x8_0000_0000;
    forall i | 0 <= i < Levels(vm) ensures Index(vm, a, i) == Index(vm, b, i) {
      SpanOfPages(vm, a, i);
      SpanOfPages(vm, b, i);
    }
  }

  lemma SpanOfPages(vm: Vm, a: nat, i: nat)
    requires i < Levels(vm)
    ensures a / (PGSIZE * Span(vm, i)) == a / PGSIZE / Span(vm, i)
  {
    assert a / (PGSIZE * 1) == a / PGSIZE / 1;
    assert a / (PGSIZE * 0x200) == a / PGSIZE / 0x200;
    assert a / (PGSIZE * 0x400) == a / PGSIZE / 0x400;
    assert a / (PGSIZE * 0x4_0000) == a / PGSIZE / 0x4_0000;
    assert a / (PGSIZE * 0x800_0000) == a / PGSIZE / 0x800_0000;
  }

  lemma {:induction false} SamePageLeaf(c: Csrs, mem: Memory, a: nat, b: nat, access: Access, supervisor: bool,
                                        page: nat, i: nat)
    requires i <= Levels(c.vm)
    requires forall k :: 0 <= k < Levels(c.vm) ==> Index(c.vm, a, k) == Index(c.vm, b, k)
    ensures FindLeaf(c, mem, a, access, supervisor, page, i) == FindLeaf(c, mem, b, access, supervisor, page, i)
    decreases Levels(c.vm) - i
  {
    hide Permits, Pte, Ppn, IsTable, Index, PteAddr;
    if i < Levels(c.vm) {
      var p := PteAddr(c.vm, page, Index(c.vm, a, i));
      if IsMem(mem, p) {
        SamePageLeaf(c, mem, a, b, access, supervisor, Ppn(Pte(mem, c.vm, p)) % W52, i + 1);
      }
    }
  }

  lemma SamePageWalk(c: Csrs, mem: Memory, a: nat, b: nat, access: Access, supervisor: bool)
    requires a / PGSIZE == b / PGSIZE
    ensures Walk(c, mem, a, access, supervisor) == Walk(c, mem, b, access, supervisor)
  {
    SameIndices(c.vm, a, b);
    SamePageLeaf(c, mem, a, b, access, supervisor, c.sptbr % W52, 0);
  }

  // ----- putting the offset in -----

  lemma {:induction false} OrBelow(p: nat, o: nat, n: nat)
    requires o < Pow2(n)
    ensures Or(p * Pow2(n), o) == p * Pow2(n) + o
    decreases n
  {
    if n == 0 {
      OrNothing(p);
    } else {
      hide Or, Pow2;
      Doubled(p, n);
      OrBelow(p, o / 2, n - 1);
      OrStep(p * Pow2(n - 1), 0, o / 2, o % 2);
    }
  }

  lemma Doubled(p: nat, n: nat)
    requires n > 0
    ensures Pow2(n) == 2 * Pow2(n - 1) && p * Pow2(n) == 2 * (p * Pow2(n - 1))
  {}

  /** The base address of a page with the page offset of `addr` put in. */
  function WithOffset(page: nat, addr: nat): nat { Or(page * PGSIZE, addr % PGSIZE) }

  lemma OffsetIsAdded(page: nat, addr: nat)
    ensures WithOffset(page, addr) == page * PGSIZE + addr % PGSIZE
  {
    assert Pow2(12) == PGSIZE by { PowersOfTwo(); }
    OrBelow(page, addr % PGSIZE, 12);
  }

  lemma PowersOfTwo()
    ensures Pow2(12) == 0x1000
  {
    assert Pow2(3) == 8;
    assert Pow2(6) == 64;
    assert Pow2(9) == 512;
  }

  /** A leaf whose page number is aligned to its span maps the whole span, page by page. */
  lemma AlignedSuperpage(vm: Vm, l: Leaf, addr: nat, base: nat)
    requires l.level < Levels(vm) && l.ppn == base * Span(vm, l.level) < W52
    ensures PageOf(vm, l, addr) == (l.ppn + addr / PGSIZE % Span(vm, l.level)) % W52
  {
    SpanIsPower(vm, l.level);
    var n :| Span(vm, l.level) == Pow2(n);
    OrBelow(base, addr / PGSIZE % Span(vm, l.level), n);
  }

  lemma SpanIsPower(vm: Vm, i: nat)
    requires i < Levels(vm)
    ensures exists n :: Span(vm, i) == Pow2(n)
  {
    PowersOfTwo();
    assert Pow2(0) == 1 && Pow2(9) == 0x200 && Pow2(10) == 0x400;
    assert Pow2(15) == 0x8000;
    assert Pow2(18) == 0x4_0000;
    assert Pow2(21) == 0x20_0000;
    assert Pow2(24) == 0x100_0000;
    assert Pow2(27) == 0x800_0000;
  }
}
