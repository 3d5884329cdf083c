/** Page-table entries and the emulator's three-level translation
    (host/emulator/address_translator.cpp). */
module Paging {
  import opened Words

  const PAGE := 4096

  datatype Access = Read | Write | Execute

  const TRAP_EXEC_ALIGN := 1
  const TRAP_NOT_PRESENT := 5
  const TRAP_PERMISSION := 6
  const TRAP_RESERVED := 7
  const TRAP_CANONICAL := 8

  const AUX_NONE := 0
  const AUX_NO_VALID_PTE := 1
  const AUX_INVALID_NONLEAF := 2
  const AUX_PERMISSION := 3
  const AUX_RESERVED_BIT := 4
  const AUX_CANONICAL := 5

  /** The result of a translation: a physical address, or a fault cause with its auxiliary word. */
  datatype Outcome = Mapped(physical: Word) | Fault(cause: nat, aux: nat)

  function Aux(subtype: nat, level: nat): nat { subtype % 16 + 0x100 * (level % 0x100) }

  function MakeFault(cause: nat, subtype: nat, level: nat): Outcome { Fault(cause, Aux(subtype, level)) }

  /** A 64-bit read of physical memory. */
  type Bus = Word -> Word

  // ---------------------------------------------------------------- entry fields

  predicate V(pte: Word) { pte % 2 == 1 }
  predicate R(pte: Word) { pte / 2 % 2 == 1 }
  predicate W(pte: Word) { pte / 4 % 2 == 1 }
  predicate X(pte: Word) { pte / 8 % 2 == 1 }
  predicate U(pte: Word) { pte / 16 % 2 == 1 }
  /** Any of bits 63..54. */
  predicate Reserved(pte: Word) { pte / 0x40_0000_0000_0000 != 0 }
  predicate IsLeaf(pte: Word) { R(pte) || W(pte) || X(pte) }

  predicate Allows(pte: Word, access: Access) {
    match access
    case Read => R(pte)
    case Write => W(pte)
    case Execute => X(pte)
  }

  /** (pte >> 10) << 12 in 64 bits: the next table or the page base. */
  function Target(pte: Word): Word { pte / 1024 * 4096 % 0x1_0000_0000_0000_0000 }

  lemma TargetAligned(pte: Word)
    ensures Target(pte) % 4096 == 0
  {
  }

  // ---------------------------------------------------------------- address fields

  predicate Canonical(va: Word) {
    if va / 0x40_0000_0000 % 2 == 0 then va / 0x80_0000_0000 == 0 else va / 0x80_0000_0000 == 0x1FF_FFFF
  }

  /** The table index used at a level (2 is the root). */
  function Index(va: Word, level: nat): (i: nat)
    ensures i < 512
  {
    if level == 2 then va / 0x4000_0000 % 512 else if level == 1 then va / 0x20_0000 % 512 else va / 4096 % 512
  }

  function PageSize(level: nat): nat { if level == 2 then 0x4000_0000 else if level == 1 then 0x20_0000 else 4096 }

  function PteAddr(table: Word, va: Word, level: nat): Word { Plus(table, Index(va, level) * 8) }

  function PhysicalIn(pte: Word, va: Word, level: nat): Word { Plus(Target(pte), va % PageSize(level)) }

  // ---------------------------------------------------------------- the emulator's translation

  datatype Config = Config(enabled: bool, root: Word, user: bool)

  function ResolveLeaf(pte: Word, level: nat, va: Word, access: Access, user: bool): Outcome {
    if !IsLeaf(pte) then MakeFault(TRAP_NOT_PRESENT, AUX_NO_VALID_PTE, level)
    else if !Allows(pte, access) then MakeFault(TRAP_PERMISSION, AUX_PERMISSION, level)
    else if user && !U(pte) then MakeFault(TRAP_PERMISSION, AUX_PERMISSION, level)
    else Mapped(PhysicalIn(pte, va, level))
  }

  /** The walk from a table of the given level downwards. */
  function Walk(read64: Bus, table: Word, level: nat, va: Word, access: Access, user: bool): Outcome
    decreases level
  {
    var pte := read64(PteAddr(table, va, level));
    if !V(pte) then MakeFault(TRAP_NOT_PRESENT, AUX_NO_VALID_PTE, level)
    else if level == 0 then
      if Reserved(pte) then MakeFault(TRAP_RESERVED, AUX_RESERVED_BIT, 0) else ResolveLeaf(pte, 0, va, access, user)
    else if IsLeaf(pte) then ResolveLeaf(pte, level, va, access, user)
    else if Reserved(pte) then MakeFault(TRAP_RESERVED, AUX_RESERVED_BIT, level)
    else Walk(read64, Target(pte), level - 1, va, access, user)
  }

  function Translation(read64: Bus, cfg: Config, va: Word, access: Access): Outcome {
    if access == Execute && va % 2 == 1 then MakeFault(TRAP_EXEC_ALIGN, AUX_NONE, 0)
    else if !cfg.enabled then Mapped(va)
    else if cfg.root % PAGE != 0 then MakeFault(TRAP_RESERVED, AUX_RESERVED_BIT, 2)
    else if !Canonical(va) then MakeFault(TRAP_CANONICAL, AUX_CANONICAL, 2)
    else Walk(read64, cfg.root, 2, va, access, cfg.user)
  }

  /** The loop over levels computes the recursive walk. */
  method Translate(read64: Bus, cfg: Config, va: Word, access: Access) returns (r: Outcome)
    ensures r == Translation(read64, cfg, va, access)
  {
    hide ResolveLeaf, Target, IsLeaf, PteAddr, Canonical, Aux, V, Reserved;
    if access == Execute && va % 2 == 1 {
      return MakeFault(TRAP_EXEC_ALIGN, AUX_NONE, 0);
    }
    if !cfg.enabled {
      return Mapped(va);
    }
    if cfg.root % PAGE != 0 {
      return MakeFault(TRAP_RESERVED, AUX_RESERVED_BIT, 2);
    }
    if !Canonical(va) {
      return MakeFault(TRAP_CANONICAL, AUX_CANONICAL, 2);
    }
    var table: Word := cfg.root;
    var level := 2;
    while level > 0
      invariant 0 <= level <= 2
      invariant Walk(read64, table, level, va, access, cfg.user) == Walk(read64, cfg.root, 2, va, access, cfg.user)
    {
      var pte := read64(PteAddr(table, va, level));
      if !V(pte) {
        return MakeFault(TRAP_NOT_PRESENT, AUX_NO_VALID_PTE, level);
      }
      if IsLeaf(pte) {
        return ResolveLeaf(pte, level, va, access, cfg.user);
      }
      if Reserved(pte) {
        return MakeFault(TRAP_RESERVED, AUX_RESERVED_BIT, level);
      }
      table := Target(pte);
      TargetAligned(pte);
      // the source faults here on a misaligned table; the shift by twelve rules it out
      assert table % PAGE == 0;
      level := level - 1;
    }
    var leaf := read64(PteAddr(table, va, 0));
    if !V(leaf) {
      return MakeFault(TRAP_NOT_PRESENT, AUX_NO_VALID_PTE, 0);
    }
    if Reserved(leaf) {
      return MakeFault(TRAP_RESERVED, AUX_RESERVED_BIT, 0);
    }
    return ResolveLeaf(leaf, 0, va, access, cfg.user);
  }

  // ---------------------------------------------------------------- what a translation depends on

  /** The addresses of the entries a walk reads, in order. */
  function WalkReads(read64: Bus, table: Word, level: nat, va: Word): (s: seq<Word>)
    ensures |s| <= level + 1
    decreases level
  {
    var a := PteAddr(table, va, level);
    var pte := read64(a);
    if !V(pte) || level == 0 || IsLeaf(pte) || Reserved(pte) then [a]
    else [a] + WalkReads(read64, Target(pte), level - 1, va)
  }

  /** Two memories that agree on the entries of the walk give the same outcome. */
  lemma {:induction false} WalkFrame(b1: Bus, b2: Bus, table: Word, level: nat, va: Word, access: Access, user: bool)
    requires forall a :: a in WalkReads(b1, table, level, va) ==> b1(a) == b2(a)
    ensures Walk(b1, table, level, va, access, user) == Walk(b2, table, level, va, access, user)
    ensures WalkReads(b1, table, level, va) == WalkReads(b2, table, level, va)
    decreases level
  {
    var a := PteAddr(table, va, level);
    var pte := b1(a);
    assert a in WalkReads(b1, table, level, va);
    if V(pte) && level > 0 && !IsLeaf(pte) && !Reserved(pte) {
      WalkFrame(b1, b2, Target(pte), level - 1, va, access, user);
    }
  }

  /** Two addresses of the same 4 KiB page. */
  predicate SamePage(va: Word, vb: Word) { va / 4096 == vb / 4096 }

  lemma SamePageFields(va: Word, vb: Word)
    requires SamePage(va, vb)
    ensures Canonical(va) <==> Canonical(vb)
    ensures forall level :: Index(va, level) == Index(vb, level)
  {
    var p := va / 4096;
    assert va / 0x20_0000 == p / 512 == vb / 0x20_0000;
    assert va / 0x4000_0000 == p / 0x4_0000 == vb / 0x4000_0000;
    assert va / 0x40_0000_0000 == p / 0x400_0000 == vb / 0x40_0000_0000;
    assert va / 0x80_0000_0000 == p / 0x800_0000 == vb / 0x80_0000_0000;
  }

  /** The byte of pa's page at vb's page offset: (pa & ~0xFFF) | (vb & 0xFFF). */
  function InPage(pa: Word, vb: Word): Word {
    var frame := pa / 4096 * 4096;
    assert frame <= 0xFFFF_FFFF_FFFF_F000;
    frame + vb % 4096
  }

  lemma OffsetInLargePage(va: Word, level: nat)
    requires level <= 2
    ensures va % PageSize(level) == va / 4096 % (PageSize(level) / 4096) * 4096 + va % 4096
  {
    ModuloSplit(va, 4096, PageSize(level) / 4096);
  }

  lemma SumInPage(target: Word, high: nat, low: nat)
    requires target % 4096 == 0 && low < 4096 && high * 4096 + 4096 <= 0x1_0000_0000_0000_0000
    ensures Plus(target, high * 4096 + low) == InPage(Plus(target, high * 4096), low)
    ensures Plus(target, high * 4096) % 4096 == 0
  {
  }

  lemma InPageAgain(frame: Word, va: Word, vb: Word)
    requires frame % 4096 == 0
    ensures InPage(frame, va % 4096) % 4096 == va % 4096
    ensures InPage(frame, vb % 4096) == InPage(InPage(frame, va % 4096), vb)
  {
    var q, a := frame / 4096, va % 4096;
    assert frame == q * 4096;
    DivModUnique(q * 4096 + a, 4096, q, a);
  }

  /** Within a page the physical frame is the same, even when the sum for a superpage wraps. */
  lemma SamePagePhysical(pte: Word, va: Word, vb: Word, level: nat)
    requires SamePage(va, vb) && level <= 2
    ensures PhysicalIn(pte, vb, level) == InPage(PhysicalIn(pte, va, level), vb)
    ensures PhysicalIn(pte, va, level) % 4096 == va % 4096
  {
    hide Target, Plus, InPage;
    var high := va / 4096 % (PageSize(level) / 4096);
    TargetAligned(pte);
    OffsetInLargePage(va, level);
    OffsetInLargePage(vb, level);
    SumInPage(Target(pte), high, va % 4096);
    SumInPage(Target(pte), high, vb % 4096);
    InPageAgain(Plus(Target(pte), high * 4096), va, vb);
  }

  /** Translating any address of a page gives the same frame or the same fault. */
  lemma {:induction false} WalkSamePage(read64: Bus, table: Word, level: nat, va: Word, vb: Word, access: Access, user: bool)
    requires SamePage(va, vb) && level <= 2
    ensures
      var oa, ob := Walk(read64, table, level, va, access, user), Walk(read64, table, level, vb, access, user);
      match oa
      case Fault(_, _) => ob == oa
      case Mapped(pa) => pa % 4096 == va % 4096 && ob == Mapped(InPage(pa, vb))
    decreases level
  {
    hide PhysicalIn, InPage, SamePage, Index, Target;
    SamePageFields(va, vb);
    var pte := read64(PteAddr(table, va, level));
    SamePagePhysical(pte, va, vb, level);
    if V(pte) && level > 0 && !IsLeaf(pte) && !Reserved(pte) {
      WalkSamePage(read64, Target(pte), level - 1, va, vb, access, user);
    }
  }

  /** What user mode may reach, supervisor mode reaches at the same address. */
  lemma {:induction false} SupervisorReaches(read64: Bus, table: Word, level: nat, va: Word, access: Access)
    requires Walk(read64, table, level, va, access, true).Mapped?
    ensures Walk(read64, table, level, va, access, false) == Walk(read64, table, level, va, access, true)
    decreases level
  {
    var pte := read64(PteAddr(table, va, level));
    if V(pte) && level > 0 && !IsLeaf(pte) && !Reserved(pte) {
      SupervisorReaches(read64, Target(pte), level - 1, va, access);
    }
  }

  /** Two accesses that both succeed reach the same physical address. */
  lemma {:induction false} SuccessIsUnique(
    read64: Bus, table: Word, level: nat, va: Word, a1: Access, u1: bool, a2: Access, u2: bool)
    requires Walk(read64, table, level, va, a1, u1).Mapped?
    requires Walk(read64, table, level, va, a2, u2).Mapped?
    ensures Walk(read64, table, level, va, a1, u1) == Walk(read64, table, level, va, a2, u2)
    decreases level
  {
    var pte := read64(PteAddr(table, va, level));
    if V(pte) && level > 0 && !IsLeaf(pte) && !Reserved(pte) {
      SuccessIsUnique(read64, Target(pte), level - 1, va, a1, u1, a2, u2);
    }
  }
}
