/** What a translation does, said of the entries read, their bits and the address alone
    (docs/hardware/memory-translation-and-boot.md): entry by entry, and page by page. */
module PagingMeaning {
  import opened Words
  import opened Paging

  const TWO_64: int := 0x1_0000_0000_0000_0000

  /** What a leaf entry at a level says of an access at this offset into its page. */
  function AtLeaf(entry: Word, level: nat, offset: nat, access: Access, user: bool): Outcome {
    var permission := if access == Read then entry / 2 else if access == Write then entry / 4 else entry / 8;
    if permission % 2 == 0 || (user && entry / 16 % 2 == 0) then Fault(6, 3 + 0x100 * level)
    else Mapped((entry / 1024 * 4096 + offset) % TWO_64)
  }

  lemma LeafBits(entry: Word)
    ensures IsLeaf(entry) <==> entry / 2 % 8 != 0
  {
    var x := entry / 2;
    ModuloSplit(x, 2, 4);
    ModuloSplit(x / 2, 2, 2);
    ModuloSplit(entry, 2, 2);
    ModuloSplit(entry, 2, 4);
    assert entry / 4 == x / 2 && entry / 8 == x / 2 / 2;
  }

  lemma ResolvedLeaf(entry: Word, level: nat, va: Word, access: Access, user: bool)
    requires level <= 2 && entry / 2 % 8 != 0
    ensures
      ResolveLeaf(entry, level, va, access, user)
      == AtLeaf(entry, level, if level == 2 then va % 0x4000_0000 else if level == 1 then va % 0x20_0000 else va % 0x1000, access, user)
  {
    hide IsLeaf, PhysicalIn;
    LeafBits(entry);
    Offset(entry, va, level);
  }

  lemma Offset(entry: Word, va: Word, level: nat)
    requires level <= 2
    ensures
      PhysicalIn(entry, va, level)
      == (entry / 1024 * 4096 + (if level == 2 then va % 0x4000_0000 else if level == 1 then va % 0x20_0000 else va % 0x1000)) % TWO_64
  {
    hide Plus;
    SumModulo(entry as int / 1024 * 4096, va % PageSize(level));
  }

  lemma SumModulo(x: nat, d: nat)
    requires d < TWO_64
    ensures Plus(x % TWO_64, d) == (x + d) % TWO_64
  {
    var q, r := x / TWO_64, x % TWO_64;
    if r + d < TWO_64 {
      DivModUnique(x + d, TWO_64, q, r + d);
    } else {
      DivModUnique(x + d, TWO_64, q + 1, r + d - TWO_64);
    }
  }

  lemma EntryAddress(x: nat, va: Word, level: nat)
    ensures PteAddr(x % TWO_64, va, level) == (x + 8 * Index(va, level)) % TWO_64
  {
    SumModulo(x, 8 * Index(va, level));
  }

  /** The whole three-level walk, written out: entries at the root plus eight times address bits 38..30,
      then 29..21, then 20..12; bit 0 valid, bits 1, 2 and 3 permissions and leaf mark, bit 4 user, bits
      53..10 the page number, the rest reserved; faults with their cause, and in the auxiliary word their
      kind and level. */
  lemma TranslationByEntries(read64: Bus, root: Word, user: bool, va: Word, access: Access)
    requires root % 4096 == 0 && (access == Execute ==> va % 2 == 0)
    requires va < 0x40_0000_0000 || va >= 0xFFFF_FFC0_0000_0000
    ensures
      var e2 := read64((root + 8 * (va / 0x4000_0000 % 512)) % TWO_64);
      var e1 := read64((e2 / 1024 * 4096 + 8 * (va / 0x20_0000 % 512)) % TWO_64);
      var e0 := read64((e1 / 1024 * 4096 + 8 * (va / 0x1000 % 512)) % TWO_64);
      Translation(read64, Config(true, root, user), va, access) ==
        if e2 % 2 == 0 then Fault(5, 0x201)
        else if e2 / 2 % 8 != 0 then AtLeaf(e2, 2, va % 0x4000_0000, access, user)
        else if e2 >= 0x40_0000_0000_0000 then Fault(7, 0x204)
        else if e1 % 2 == 0 then Fault(5, 0x101)
        else if e1 / 2 % 8 != 0 then AtLeaf(e1, 1, va % 0x20_0000, access, user)
        else if e1 >= 0x40_0000_0000_0000 then Fault(7, 0x104)
        else if e0 % 2 == 0 then Fault(5, 1)
        else if e0 >= 0x40_0000_0000_0000 then Fault(7, 4)
        else if e0 / 2 % 8 == 0 then Fault(5, 1)
        else AtLeaf(e0, 0, va % 0x1000, access, user)
  {
    hide Walk, Canonical, AtLeaf;
    var e2 := read64((root + 8 * (va / 0x4000_0000 % 512)) % TWO_64);
    var e1 := read64((e2 / 1024 * 4096 + 8 * (va / 0x20_0000 % 512)) % TWO_64);
    var table1: nat, table0: nat := e2 as int / 1024 * 4096, e1 as int / 1024 * 4096;
    DivModUnique(root, TWO_64, 0, root);
    CanonicalHalves(va);
    WalkStep(read64, root, 2, va, access, user);
    WalkStep(read64, table1, 1, va, access, user);
    WalkEnd(read64, table0, va, access, user);
  }

  lemma WalkStep(read64: Bus, table: nat, level: nat, va: Word, access: Access, user: bool)
    requires level == 1 || level == 2
    ensures
      var e := read64((table + 8 * Index(va, level)) % TWO_64);
      Walk(read64, table % TWO_64, level, va, access, user) ==
        if e % 2 == 0 then Fault(5, 1 + 0x100 * level)
        else if e / 2 % 8 != 0 then AtLeaf(e, level, if level == 2 then va % 0x4000_0000 else va % 0x20_0000, access, user)
        else if e >= 0x40_0000_0000_0000 then Fault(7, 4 + 0x100 * level)
        else Walk(read64, e / 1024 * 4096 % TWO_64, level - 1, va, access, user)
  {
    hide IsLeaf, AtLeaf, ResolveLeaf, PteAddr, Index;
    var e := read64((table + 8 * Index(va, level)) % TWO_64);
    EntryAddress(table, va, level);
    LeafBits(e);
    if e / 2 % 8 != 0 {
      ResolvedLeaf(e, level, va, access, user);
    }
  }

  lemma WalkEnd(read64: Bus, table: nat, va: Word, access: Access, user: bool)
    ensures
      var e := read64((table + 8 * Index(va, 0)) % TWO_64);
      Walk(read64, table % TWO_64, 0, va, access, user) ==
        if e % 2 == 0 then Fault(5, 1)
        else if e >= 0x40_0000_0000_0000 then Fault(7, 4)
        else if e / 2 % 8 == 0 then Fault(5, 1)
        else AtLeaf(e, 0, va % 0x1000, access, user)
  {
    hide IsLeaf, AtLeaf, PteAddr, Index;
    var e := read64((table + 8 * Index(va, 0)) % TWO_64);
    EntryAddress(table, va, 0);
    LeafBits(e);
    if e / 2 % 8 != 0 {
      ResolvedLeaf(e, 0, va, access, user);
    }
  }

  /** Before any entry is read: an odd fetch, paging off, a misaligned root, an address between the halves. */
  lemma TranslationWithoutEntries(read64: Bus, cfg: Config, va: Word, access: Access)
    ensures access == Execute && va % 2 == 1 ==> Translation(read64, cfg, va, access) == Fault(1, 0)
    ensures
      var between := 0x40_0000_0000 <= va < 0xFFFF_FFC0_0000_0000;
      !(access == Execute && va % 2 == 1) ==>
        && (!cfg.enabled ==> Translation(read64, cfg, va, access) == Mapped(va))
        && (cfg.enabled && cfg.root % 4096 != 0 ==> Translation(read64, cfg, va, access) == Fault(7, 0x204))
        && (cfg.enabled && cfg.root % 4096 == 0 && between ==> Translation(read64, cfg, va, access) == Fault(8, 0x205))
  {
    hide Walk, Canonical;
    CanonicalHalves(va);
  }

  /** Canonical addresses are those of the two halves, below 2^38 and from 2^64 - 2^38 on. */
  lemma CanonicalHalves(va: Word)
    ensures Canonical(va) <==> va < 0x40_0000_0000 || va >= 0xFFFF_FFC0_0000_0000
  {
  }

  // ---------------------------------------------------------------- superpages

  /** The level and the entry at which the walk meets a leaf. */
  function LeafOf(read64: Bus, table: Word, level: nat, va: Word): Option<(nat, Word)>
    decreases level
  {
    var pte := read64(PteAddr(table, va, level));
    if !V(pte) then None
    else if IsLeaf(pte) then Some((level, pte))
    else if level == 0 || Reserved(pte) then None
    else LeafOf(read64, Target(pte), level - 1, va)
  }

  /** Canonical addresses that share the indices of the levels above a page share the page's number. */
  lemma SamePageNumber(va: Word, vb: Word, level: nat)
    requires level <= 2 && Canonical(va) && Canonical(vb)
    requires forall k :: level <= k <= 2 ==> Index(va, k) == Index(vb, k)
    ensures va - va % PageSize(level) == vb - vb % PageSize(level)
  {
    TopPart(va);
    TopPart(vb);
    assert Index(va, 2) == Index(vb, 2);
    if level <= 1 {
      assert Index(va, 1) == Index(vb, 1);
    }
    if level == 0 {
      assert Index(va, 0) == Index(vb, 0);
    }
  }

  /** A canonical address by its indices and page offset. */
  lemma TopPart(va: Word)
    requires Canonical(va)
    ensures
      var i, j, k, o := Index(va, 2), Index(va, 1), Index(va, 0), va % 0x1000;
      var top := if i >= 256 then 0xFFFF_FF80_0000_0000 else 0;
      && va == top + i * 0x4000_0000 + j * 0x20_0000 + k * 0x1000 + o
      && va % 0x4000_0000 == j * 0x20_0000 + k * 0x1000 + o && va % 0x20_0000 == k * 0x1000 + o
  {
    CanonicalHalves(va);
    ModuloSplit(va, 0x1000, 512);
    ModuloSplit(va, 0x20_0000, 512);
    ModuloSplit(va, 0x4000_0000, 512);
  }

  /** Inside a page of any size physical addresses move with virtual ones, and the page begins at the frame
      its entry names. */
  lemma PageIsContiguous(read64: Bus, cfg: Config, va: Word, vb: Word, access: Access, level: nat, entry: Word)
    requires cfg.enabled && (access == Execute ==> vb % 2 == 0) && Canonical(vb)
    requires Translation(read64, cfg, va, access).Mapped? && LeafOf(read64, cfg.root, 2, va) == Some((level, entry))
    requires level <= 2 && forall k :: level <= k <= 2 ==> Index(va, k) == Index(vb, k)
    ensures
      var pa := Translation(read64, cfg, va, access).physical;
      Translation(read64, cfg, vb, access) == Mapped((pa + vb - va) % TWO_64)
    ensures (forall k :: 0 <= k < level ==> Index(vb, k) == 0) && vb % 4096 == 0 ==>
      Translation(read64, cfg, vb, access) == Mapped(entry / 1024 * 4096 % TWO_64)
  {
    hide Canonical, Walk, LeafOf, Plus;
    SamePageNumber(va, vb, level);
    SameLeafWalk(read64, cfg.root, 2, va, vb, access, cfg.user, level, entry);
    var t, a, b := Target(entry), va % PageSize(level), vb % PageSize(level);
    OffsetSum(entry, t, a, b, vb - va);
    TopPart(vb);
    if (forall k :: 0 <= k < level ==> Index(vb, k) == 0) && vb % 4096 == 0 {
      if level >= 1 {
        assert Index(vb, 0) == 0;
      }
      if level == 2 {
        assert Index(vb, 1) == 0;
      }
      assert b == 0;
    }
  }

  lemma OffsetSum(entry: Word, t: Word, a: nat, b: nat, d: int)
    requires t == entry / 1024 * 4096 % TWO_64 && a < TWO_64 && b < TWO_64 && d == b - a
    ensures Plus(t, b) == (Plus(t, a) + d) % TWO_64 && Plus(t, 0) == t
  {
    SumModulo(t, b);
    DivModUnique(t, TWO_64, 0, t);
    if t + a < TWO_64 {
      assert Plus(t, a) + d == t + b;
    } else {
      DivModUnique(t + a - TWO_64 + d, TWO_64, (t + b) / TWO_64 - 1, (t + b) % TWO_64);
    }
  }

  lemma {:induction false} SameLeafWalk(
    read64: Bus, table: Word, level: nat, va: Word, vb: Word, access: Access, user: bool, l: nat, entry: Word)
    requires l <= level <= 2 && LeafOf(read64, table, level, va) == Some((l, entry))
    requires Walk(read64, table, level, va, access, user).Mapped?
    requires forall k :: l <= k <= level ==> Index(va, k) == Index(vb, k)
    ensures Walk(read64, table, level, va, access, user) == Mapped(Plus(Target(entry), va % PageSize(l)))
    ensures Walk(read64, table, level, vb, access, user) == Mapped(Plus(Target(entry), vb % PageSize(l)))
    decreases level
  {
    hide PageSize, Index, V, IsLeaf, Reserved, Target, Allows;
    var pte := read64(PteAddr(table, va, level));
    assert PteAddr(table, va, level) == PteAddr(table, vb, level);
    if V(pte) && !IsLeaf(pte) && level > 0 && !Reserved(pte) {
      LeafLevelBound(read64, Target(pte), level - 1, va);
      SameLeafWalk(read64, Target(pte), level - 1, va, vb, access, user, l, entry);
    }
  }

  lemma {:induction false} LeafLevelBound(read64: Bus, table: Word, level: nat, va: Word)
    ensures LeafOf(read64, table, level, va).Some? ==> LeafOf(read64, table, level, va).value.0 <= level
    decreases level
  {
    var pte := read64(PteAddr(table, va, level));
    if V(pte) && !IsLeaf(pte) && level > 0 && !Reserved(pte) {
      LeafLevelBound(read64, Target(pte), level - 1, va);
    }
  }
}
