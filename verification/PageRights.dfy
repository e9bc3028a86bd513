/**
 What the page walk decides, without the tests of its loop: which entry an address leads to, which flags let an access
 through there, and what is written.
 */
module PageRights {
  import opened Numbers
  import opened PageWalk
  import opened Wrappers

  // ----- the entry an address leads to -----

  /** The first entry on the way that does not point to a table. */
  function EntryFrom(c: Csrs, mem: Memory, addr: nat, page: nat, i: nat): (r: Option<Leaf>)
    requires i <= Levels(c.vm)
    ensures r.Some? ==> IsLeafOf(mem, c.vm, r.value)
    decreases Levels(c.vm) - i
  {
    if i == Levels(c.vm) then None
    else
      var a := PteAddr(c.vm, page, Index(c.vm, addr, i));
      if !IsMem(mem, a) then None
      else
        var pte := Pte(mem, c.vm, a);
        if IsTable(pte) then EntryFrom(c, mem, addr, Ppn(pte) % W52, i + 1) else Some(Leaf(a, i, Ppn(pte)))
  }

  function Entry(c: Csrs, mem: Memory, addr: nat): (r: Option<Leaf>)
    ensures r.Some? ==> IsLeafOf(mem, c.vm, r.value)
  {
    EntryFrom(c, mem, addr, c.sptbr % W52, 0)
  }

  lemma EntryStep(c: Csrs, mem: Memory, addr: nat, page: nat, i: nat)
    requires i < Levels(c.vm)
    ensures var a := PteAddr(c.vm, page, Index(c.vm, addr, i));
            EntryFrom(c, mem, addr, page, i) ==
            if !IsMem(mem, a) then None
            else if IsTable(Pte(mem, c.vm, a)) then EntryFrom(c, mem, addr, Ppn(Pte(mem, c.vm, a)) % W52, i + 1)
            else Some(Leaf(a, i, Ppn(Pte(mem, c.vm, a))))
  {
    hide Pte, IsTable, Ppn, Index;
  }

  /**
   The low four bits of a byte are V, R, W and X, and the next one is U. Of the sixteen combinations of the four, 3 can
   be read, 7 read and written, 9 executed, 11 read and executed, and 15 everything; all others let nothing through. A
   page of the user is closed to the supervisor under PUM, and any other page to the user.
   */
  predicate Allows(b: Byte, pum: bool, mxr: bool, access: Access, supervisor: bool) {
    && (if b / 16 % 2 == 1 then !(supervisor && pum) else supervisor)
    && match access
       case FETCH => b % 16 in {9, 11, 15}
       case LOAD => b % 16 in {3, 7, 11, 15} || (mxr && b % 16 == 9)
       case STORE => b % 16 in {7, 15}
  }

  lemma PermitsIsAllows(c: Csrs, b: Byte, rest: nat, access: Access, supervisor: bool)
    ensures var pte := b + 0x100 * rest;
            !IsTable(pte) && Permits(c, pte, access, supervisor) <==> Allows(b, c.pum, c.mxr, access, supervisor)
  {
    FlagsOfByte(b, rest);
    FlagsAllow(c, b, b + 0x100 * rest, access, supervisor);
  }

  lemma FlagsAllow(c: Csrs, b: Byte, pte: nat, access: Access, supervisor: bool)
    requires Flags(pte) == b % 0x40
    ensures !IsTable(pte) && Permits(c, pte, access, supervisor) <==> Allows(b, c.pum, c.mxr, access, supervisor)
  {
    hide Flags;
    LowSix(b);
    FourBits(b % 0x40);
    Combinations(b % 16);
  }

  lemma LowSix(b: nat)
    ensures b % 0x40 % 16 == b % 16 && b % 0x40 / 16 % 2 == b / 16 % 2
  {
    var q, r := b / 0x40, b % 0x40;
    assert b == 0x40 * q + r;
    DivModUnique(b, 16, 4 * q + r / 16, r % 16);
    DivModUnique(4 * q + r / 16, 2, 2 * q + r / 16 / 2, r / 16 % 2);
  }

  lemma FourBits(f: nat)
    ensures f % 2 == f % 16 % 2 && f / 2 % 2 == f % 16 / 2 % 2
    ensures f / 4 % 2 == f % 16 / 4 % 2 && f / 8 % 2 == f % 16 / 8 % 2
  {
    var q, r := f / 16, f % 16;
    assert f == 16 * q + r;
    DivModUnique(f, 2, 8 * q + r / 2, r % 2);
    DivModUnique(8 * q + r / 2, 2, 4 * q + r / 2 / 2, r / 2 % 2);
    DivModUnique(f, 4, 4 * q + r / 4, r % 4);
    DivModUnique(4 * q + r / 4, 2, 2 * q + r / 4 / 2, r / 4 % 2);
    DivModUnique(f, 8, 2 * q + r / 8, r % 8);
    DivModUnique(2 * q + r / 8, 2, q + r / 8 / 2, r / 8 % 2);
  }

  lemma Combinations(f: nat)
    requires f < 16
    ensures f in {3, 7, 9, 11, 15} ==> f % 2 == 1
    ensures f in {3, 7, 11, 15} <==> f % 2 == 1 && f / 2 % 2 == 1
    ensures f in {7, 15} <==> f % 2 == 1 && f / 2 % 2 == 1 && f / 4 % 2 == 1
    ensures f in {9, 11, 15} <==> f % 2 == 1 && f / 8 % 2 == 1 && (f / 2 % 2 == 1 || f / 4 % 2 == 0)
  {}

  /** A walk succeeds exactly when there is an entry, the address is canonical, and the flags allow the access. */
  lemma WalkExactlyWhen(c: Csrs, mem: Memory, addr: nat, access: Access, supervisor: bool)
    ensures Walk(c, mem, addr, access, supervisor) ==
            match Entry(c, mem, addr)
            case None => None
            case Some(l) =>
              if Canonical(c.vm, addr) && Allows(mem[l.pteAddr - DRAM_BASE], c.pum, c.mxr, access, supervisor) then
                Some(l)
              else None
  {
    hide Canonical, FindLeaf, EntryFrom, Allows;
    LeafExactlyWhen(c, mem, addr, access, supervisor, c.sptbr % W52, 0);
  }

  lemma {:induction false} LeafExactlyWhen(c: Csrs, mem: Memory, addr: nat, access: Access, supervisor: bool,
                                           page: nat, i: nat)
    requires i <= Levels(c.vm)
    ensures FindLeaf(c, mem, addr, access, supervisor, page, i) ==
            match EntryFrom(c, mem, addr, page, i)
            case None => None
            case Some(l) =>
              if Allows(mem[l.pteAddr - DRAM_BASE], c.pum, c.mxr, access, supervisor) then Some(l) else None
    decreases Levels(c.vm) - i
  {
    hide Permits, Allows, IsTable, Ppn, Index, PteRest;
    if i < Levels(c.vm) {
      var a := PteAddr(c.vm, page, Index(c.vm, addr, i));
      if IsMem(mem, a) {
        PermitsIsAllows(c, PteFlags(mem, c.vm, a), PteRest(mem, c.vm, a), access, supervisor);
        LeafExactlyWhen(c, mem, addr, access, supervisor, Ppn(Pte(mem, c.vm, a)) % W52, i + 1);
      }
    }
  }

  /** Where an access gets through, the entry has the right for it. */
  lemma RightsOfWalk(c: Csrs, mem: Memory, addr: nat, access: Access, supervisor: bool)
    requires Walk(c, mem, addr, access, supervisor).Some?
    ensures var b := mem[Walk(c, mem, addr, access, supervisor).value.pteAddr - DRAM_BASE];
            && b % 2 == 1
            && (access == STORE ==> b / 2 % 2 == 1 && b / 4 % 2 == 1)
            && (access == FETCH ==> b / 8 % 2 == 1)
            && (access == LOAD ==> b / 2 % 2 == 1 || (c.mxr && b / 8 % 2 == 1))
            && (b / 16 % 2 == 0 ==> supervisor)
            && (b / 16 % 2 == 1 && supervisor ==> !c.pum)
  {
    hide Walk, Entry;
    WalkExactlyWhen(c, mem, addr, access, supervisor);
    var b := mem[Walk(c, mem, addr, access, supervisor).value.pteAddr - DRAM_BASE];
    FourBits(b);
    Combinations(b % 16);
  }

  // ----- the way there -----

  /** The indices of all levels and the page offset are the digits of the address, the highest first. */
  lemma IndicesAreDigits(vm: Vm, addr: nat)
    ensures match vm
            case Sv32 =>
              (Index(vm, addr, 0) * 1024 + Index(vm, addr, 1)) * 4096 + addr % 4096 == addr % 0x1_0000_0000
            case Sv39 =>
              ((Index(vm, addr, 0) * 512 + Index(vm, addr, 1)) * 512 + Index(vm, addr, 2)) * 4096 + addr % 4096 ==
              addr % 0x80_0000_0000
            case Sv48 =>
              (((Index(vm, addr, 0) * 512 + Index(vm, addr, 1)) * 512 + Index(vm, addr, 2)) * 512
               + Index(vm, addr, 3)) * 4096 + addr % 4096 == addr % 0x1_0000_0000_0000
  {
    match vm
    case Sv32 =>
      Digit(addr, 0x1000, 1024);
      Digit(addr, 0x40_0000, 1024);
    case Sv39 =>
      Digit(addr, 0x1000, 512);
      Digit(addr, 0x20_0000, 512);
      Digit(addr, 0x4000_0000, 512);
    case Sv48 =>
      Digit(addr, 0x1000, 512);
      Digit(addr, 0x20_0000, 512);
      Digit(addr, 0x4000_0000, 512);
      Digit(addr, 0x80_0000_0000, 512);
  }

  /** One more digit, of base `n`, in front of the digits below `m`. */
  lemma Digit(x: nat, m: nat, n: nat)
    requires m > 0 && n > 0
    ensures m * n > 0 && x % (m * n) == x / m % n * m + x % m
  {
    var q, r := x / m, x % m;
    var k, d := q / n, q % n;
    assert x == q * m + r && q == k * n + d;
    assert m * n > 0;
    assert q * m == k * (m * n) + d * m;
    assert d * m + r < m * n by { MulMonotone(d + 1, n, m); }
    DivModUnique(x, m * n, k, d * m + r);
  }

  /** The canonical addresses: the lower and the upper half of the range of a mode, and all of 32 bits. */
  lemma CanonicalExactlyWhen(vm: Vm, addr: nat)
    requires addr < W64
    ensures vm.Sv32? ==> Canonical(vm, addr)
    ensures vm.Sv39? ==> (Canonical(vm, addr) <==> addr < 0x40_0000_0000 || addr >= W64 - 0x40_0000_0000)
    ensures vm.Sv48? ==> (Canonical(vm, addr) <==> addr < 0x8000_0000_0000 || addr >= W64 - 0x8000_0000_0000)
  {}

  /** A number from its bytes, the lowest first. */
  function LittleEndian(bytes: seq<Byte>): nat {
    if bytes == [] then 0 else bytes[0] + 0x100 * LittleEndian(bytes[1..])
  }

  /** An entry is read as a little-endian word, and the number of its page is above its ten flags. */
  lemma EntryIsWord(mem: Memory, vm: Vm, a: nat)
    requires IsPte(mem, vm, a)
    ensures var o := a - DRAM_BASE;
            && o + PteSize(vm) <= |mem|
            && Pte(mem, vm, a) == LittleEndian(mem[o..o + PteSize(vm)])
            && Ppn(Pte(mem, vm, a)) * 1024 <= Pte(mem, vm, a) < Ppn(Pte(mem, vm, a)) * 1024 + 1024
  {
    hide LittleEndian, Pte, Ppn;
    var o := a - DRAM_BASE;
    EntryFits(|mem|, o, PteSize(vm));
    var bytes := mem[o..o + PteSize(vm)];
    PteBytes(mem, vm, a);
    PpnBounds(Pte(mem, vm, a));
    FourBytes(bytes);
    NoBytes(bytes[PteSize(vm)..]);
    if !vm.Sv32? {
      FourBytes(bytes[4..]);
      assert bytes[4..][4..] == bytes[8..];
    }
  }

  lemma PteBytes(mem: Memory, vm: Vm, a: nat)
    requires IsPte(mem, vm, a) && a - DRAM_BASE + PteSize(vm) <= |mem|
    ensures var o := a - DRAM_BASE;
            Pte(mem, vm, a) ==
            At(mem, o) + 0x100 * At(mem, o + 1) + 0x1_0000 * At(mem, o + 2) + 0x100_0000 * At(mem, o + 3) +
            if vm.Sv32? then 0
            else
              W32 * (At(mem, o + 4) + 0x100 * At(mem, o + 5) + 0x1_0000 * At(mem, o + 6) + 0x100_0000 * At(mem, o + 7))
  {}

  lemma PpnBounds(pte: nat)
    ensures Ppn(pte) * 1024 <= pte < Ppn(pte) * 1024 + 1024
  {}

  lemma NoBytes(b: seq<Byte>)
    requires b == []
    ensures LittleEndian(b) == 0
  {}

  lemma EntryFits(n: nat, o: int, size: nat)
    requires n % PGSIZE == 0 && 0 <= o < n && (size == 4 || size == 8) && (o + DRAM_BASE) % size == 0
    ensures o + size <= n
  {
    if size == 4 {
      WordFits(n / PGSIZE, (o + DRAM_BASE) / 4);
    } else {
      DoubleFits(n / PGSIZE, (o + DRAM_BASE) / 8);
    }
  }

  lemma WordFits(p: nat, j: int)
    ensures 4 * j - DRAM_BASE < PGSIZE * p ==> 4 * j - DRAM_BASE + 4 <= PGSIZE * p
  {}

  lemma DoubleFits(p: nat, j: int)
    ensures 8 * j - DRAM_BASE < PGSIZE * p ==> 8 * j - DRAM_BASE + 8 <= PGSIZE * p
  {}

  lemma FourBytes(b: seq<Byte>)
    requires |b| >= 4
    ensures LittleEndian(b) == b[0] + 0x100 * b[1] + 0x1_0000 * b[2] + 0x100_0000 * b[3] + W32 * LittleEndian(b[4..])
  {
    assert b[1..][1..] == b[2..] && b[2..][1..] == b[3..] && b[3..][1..] == b[4..];
    assert LittleEndian(b) == b[0] + 0x100 * LittleEndian(b[1..]);
    assert LittleEndian(b[1..]) == b[1] + 0x100 * LittleEndian(b[2..]);
    assert LittleEndian(b[2..]) == b[2] + 0x100 * LittleEndian(b[3..]);
    assert LittleEndian(b[3..]) == b[3] + 0x100 * LittleEndian(b[4..]);
  }

  // ----- the steps of both walkers -----

  lemma PlaceIs(vm: Vm, page: nat, addr: nat, i: nat)
    requires i < Levels(vm)
    ensures PGSIZE * Span(vm, i) > 0 && PageWalk.Entries(vm) > 0
    ensures var idx := addr / (PGSIZE * Span(vm, i)) % PageWalk.Entries(vm);
            PteAddr(vm, page, Index(vm, addr, i)) == page * PGSIZE + idx * PteSize(vm)
    ensures PteAddr(vm, page, Index(vm, addr, i)) % PteSize(vm) == 0
  {
    hide PteAddr;
    EntryPlace(vm, page, Index(vm, addr, i));
  }

  lemma EntryPlace(vm: Vm, page: nat, idx: nat)
    requires idx < PageWalk.Entries(vm)
    ensures PteAddr(vm, page, idx) == page * PGSIZE + idx * PteSize(vm)
  {}

  lemma SpanIs(vm: Vm, i: nat)
    requires i + 1 < Levels(vm)
    ensures PageWalk.Entries(vm) > 0 && Span(vm, i + 1) == Span(vm, i) / PageWalk.Entries(vm)
  {}

  lemma TableIs(pte: nat)
    ensures IsTable(pte) <==> pte % 16 == 1
    ensures Ppn(pte) == pte / 0x400
  {
    LowSix(pte);
  }

  lemma PageOfIs(vm: Vm, l: Leaf, addr: nat)
    requires l.level < Levels(vm)
    ensures PageOf(vm, l, addr) == Or(l.ppn, addr / PGSIZE % Span(vm, l.level)) % W52
  {}

  // ----- what is written -----

  /** A walk sets A in the entry it ends at, and D for a store; everything else stays. */
  lemma WalkWrites(c: Csrs, mem: Memory, addr: nat, access: Access, supervisor: bool)
    requires Walk(c, mem, addr, access, supervisor).Some?
    ensures var o := Walk(c, mem, addr, access, supervisor).value.pteAddr - DRAM_BASE;
            var m := WalkMem(c, mem, addr, access, supervisor);
            && (forall k :: 0 <= k < |mem| && k != o ==> m[k] == mem[k])
            && m[o] % 0x40 == mem[o] % 0x40 && m[o] / 0x40 % 2 == 1
            && m[o] / 0x80 == if access == STORE then 1 else mem[o] / 0x80
  {
    hide Walk;
    TouchedBits(mem[Walk(c, mem, addr, access, supervisor).value.pteAddr - DRAM_BASE], access);
  }

  lemma TouchedBits(b: Byte, access: Access)
    ensures Touched(b, access) % 0x40 == b % 0x40 && Touched(b, access) / 0x40 % 2 == 1
    ensures Touched(b, access) / 0x80 == if access == STORE then 1 else b / 0x80
  {}
}
