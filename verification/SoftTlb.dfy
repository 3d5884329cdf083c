/** The emulator's 64-entry software TLB in front of the translator (host/emulator/cpu.hpp and
    cpu.cpp): every access translates as the full walk would with the current root, mode and
    page tables. */
module SoftTlb {
  import opened Words
  import opened Paging
  import opened Control

  const ENTRIES := 64

  /** vpage 2^64 - 1 marks an empty entry; perms holds the accesses seen to succeed. */
  datatype Entry = Entry(vpage: Word, pbase: Word, perms: set<Access>, userAccessible: bool)

  const EMPTY: Entry := Entry(WORD_MAX, 0, {}, false)

  /** The translation of vpage for one access agrees with an entry. */
  predicate Confirms(read64: Bus, root: Word, e: Entry, access: Access, user: bool) {
    && e.vpage < 0x10_0000_0000_0000
    && Translation(read64, Config(true, root, user), e.vpage * 4096, access) == Mapped(e.pbase)
  }

  /** What is known of a live entry: each recorded access succeeds in supervisor mode, and in user
      mode too while the CPU is in user mode. */
  ghost predicate EntryOk(read64: Bus, root: Word, user: bool, index: nat, e: Entry) {
    e.vpage != WORD_MAX ==>
      && e.vpage % ENTRIES == index
      && e.pbase % 4096 == 0
      && e.perms != {}
      && (forall access :: access in e.perms ==> Confirms(read64, root, e, access, false))
      && (user ==> e.userAccessible && forall access :: access in e.perms ==> Confirms(read64, root, e, access, true))
  }

  lemma PageBits()
    ensures Pow2(12) == 4096
  {
    SmallPowers();
    Pow2Split(8, 4);
  }

  lemma OrOfPageOffset(pbase: Word, va: Word)
    requires pbase % 4096 == 0
    ensures OR.Word64(pbase, va % 4096) == InPage(pbase, va)
  {
    hide Pow2, BitOp.Apply;
    var q := pbase / 4096;
    Pow2Of64();
    PageBits();
    OrDisjointIsSum(64, 12, q, va % 4096);
    assert q * 4096 == pbase;
  }

  /** A translation confirmed for the page start holds anywhere in the page. */
  lemma HitAgrees(read64: Bus, root: Word, e: Entry, access: Access, user: bool, va: Word)
    requires Confirms(read64, root, e, access, user) && va / 4096 == e.vpage && e.pbase % 4096 == 0
    requires access == Execute ==> va % 2 == 0
    ensures Translation(read64, Config(true, root, user), va, access) == Mapped(OR.Word64(e.pbase, va % 4096))
  {
    hide Walk, InPage, Canonical, BitOp.Word64;
    var base := e.vpage * 4096;
    SamePageFields(base, va);
    WalkSamePage(read64, root, 2, base, va, access, user);
    OrOfPageOffset(e.pbase, va);
  }

  function PageStart(a: Word): (p: Word)
    ensures p % 4096 == 0
  {
    a / 4096 * 4096
  }

  /** The walk behind a successful translation confirms an entry for its page. */
  lemma FillConfirms(read64: Bus, root: Word, va: Word, access: Access, user: bool, pa: Word)
    requires Translation(read64, Config(true, root, user), va, access) == Mapped(pa)
    ensures
      var e := Entry(va / 4096, PageStart(pa), {access}, user);
      && Confirms(read64, root, e, access, user)
      && Confirms(read64, root, e, access, false)
  {
    hide Walk, Canonical;
    var base := PageStart(va);
    SamePageFields(va, base);
    WalkSamePage(read64, root, 2, va, base, access, user);
    assert InPage(pa, base) == PageStart(pa);
    if user {
      SupervisorReaches(read64, root, 2, base, access);
    }
  }

  /** Adding the permission of one more successful access to an entry for the same page. */
  lemma Accumulates(read64: Bus, root: Word, user: bool, index: nat, e: Entry, access: Access, va: Word, pa: Word)
    requires e.vpage == va / 4096 && EntryOk(read64, root, user, index, e)
    requires Translation(read64, Config(true, root, user), va, access) == Mapped(pa)
    ensures EntryOk(read64, root, user, index, e.(perms := e.perms + {access}))
  {
    FillConfirms(read64, root, va, access, user, pa);
    var seen :| seen in e.perms;
    assert Confirms(read64, root, e, seen, false);
    SuccessIsUnique(read64, root, 2, e.vpage * 4096, seen, false, access, false);
  }

  /** The TLB and the part of the CPU state it depends on. */
  class Mmu {
    var control: Word
    var root: Word
    var read64: Bus
    var tlb: array<Entry>

    /** Every live entry is confirmed by the current page tables. */
    ghost predicate Coherent()
      reads this, tlb
    {
      && tlb.Length == ENTRIES
      && forall i :: 0 <= i < ENTRIES ==> EntryOk(read64, root, UserMode(control), i, tlb[i])
    }

    /** The slot of the page, its number modulo 64, holds the page with this access. */
    predicate Remembers(va: Word, access: Access)
      reads this, tlb
      requires tlb.Length == 64
    {
      var e := tlb[va / 4096 % 64];
      e.vpage == va / 4096 && access in e.perms
    }

    function Full(va: Word, access: Access): Outcome
      reads this
    {
      Translation(read64, Config(PagingEnabled(control), root, UserMode(control)), va, access)
    }

    constructor (read64: Bus)
      ensures Coherent() && fresh(tlb)
      ensures control == 0 && root == 0 && this.read64 == read64
    {
      this.control := 0;
      this.root := 0;
      this.read64 := read64;
      this.tlb := new Entry[ENTRIES](i => EMPTY);
    }

    method FlushTlb()
      requires tlb.Length == ENTRIES
      modifies tlb
      ensures Coherent()
      ensures forall i :: 0 <= i < ENTRIES ==> tlb[i] == old(tlb[i]).(vpage := WORD_MAX)
    {
      for i := 0 to ENTRIES
        invariant forall j :: 0 <= j < i ==> tlb[j] == old(tlb[j]).(vpage := WORD_MAX)
        invariant forall j :: i <= j < ENTRIES ==> tlb[j] == old(tlb[j])
      {
        tlb[i] := tlb[i].(vpage := WORD_MAX);
      }
    }

    /** Every access, hit or miss, has the outcome of the full translation. */
    method MapAddress(va: Word, access: Access) returns (r: Outcome)
      requires Coherent()
      modifies tlb
      ensures Coherent()
      ensures r == old(Full(va, access))
      ensures r == old(Translation(read64, Config(control / 0x1_0000 % 2 == 1, root, control / 0x2_0000 % 2 == 1), va, access))
      ensures forall i :: 0 <= i < 64 && i != va / 4096 % 64 ==> tlb[i] == old(tlb[i])
      ensures r.Mapped? && PagingEnabled(control) ==> Remembers(va, access)
    {
      if access == Execute && va % 2 == 1 {
        r := MapAddressSlowPath(va, access);
        return;
      }
      if !PagingEnabled(control) {
        return Mapped(va);
      }
      var vpage: Word := va / 4096;
      var entry := tlb[vpage % ENTRIES];
      if entry.vpage == vpage {
        if access in entry.perms {
          if !UserMode(control) || entry.userAccessible {
            hide Translation, Confirms, BitOp.Word64;
            assert EntryOk(read64, root, UserMode(control), vpage % ENTRIES, entry);
            HitAgrees(read64, root, entry, access, UserMode(control), va);
            return Mapped(OR.Word64(entry.pbase, va % 4096));
          }
        }
      }
      r := MapAddressSlowPath(va, access);
    }

    /** A miss: a successful translation is left in the slot of its page, together with what the slot knew of
        that page already; a failed one leaves no trace. */
    method MapAddressSlowPath(va: Word, access: Access) returns (r: Outcome)
      requires Coherent()
      modifies tlb
      ensures Coherent()
      ensures r == old(Full(va, access))
      ensures forall i :: 0 <= i < 64 && i != va / 4096 % 64 ==> tlb[i] == old(tlb[i])
      ensures
        var slot := va / 4096 % 64;
        tlb[slot] == if !r.Mapped? || !PagingEnabled(control) then old(tlb[slot])
                     else if old(tlb[slot]).vpage == va / 4096 then old(tlb[slot]).(perms := old(tlb[slot]).perms + {access})
                     else Entry(va / 4096, r.physical / 4096 * 4096, {access}, UserMode(control))
    {
      hide Translation, Confirms, BitOp.Word64;
      var user := UserMode(control);
      r := Translate(read64, Config(PagingEnabled(control), root, user), va, access);
      if r.Mapped? && PagingEnabled(control) {
        FillConfirms(read64, root, va, access, user, r.physical);
        var vpage: Word := va / 4096;
        var idx := vpage % ENTRIES;
        var entry := tlb[idx];
        if entry.vpage == vpage {
          Accumulates(read64, root, user, idx, entry, access, va, r.physical);
          tlb[idx] := entry.(perms := entry.perms + {access});
        } else {
          tlb[idx] := Entry(vpage, PageStart(r.physical), {access}, user);
        }
      }
    }

    /** SSR to cpu_control: the TLB is flushed. */
    method WriteControl(value: Word)
      requires Coherent()
      modifies this`control, tlb
      ensures Coherent() && control == value
    {
      control := value;
      FlushTlb();
    }

    /** SSR to the page-table root: the TLB is flushed. */
    method WriteRoot(value: Word)
      requires Coherent()
      modifies this`root, tlb
      ensures Coherent() && root == value
    {
      root := value;
      FlushTlb();
    }

    /** Interrupt and exception entry: supervisor mode, no flush. */
    method EnterHandler(vector: nat)
      requires Coherent() && vector < 128
      modifies this`control
      ensures Coherent() && control == HandlerControl(old(control), vector)
    {
      HandlerControlBits(control, vector);
      control := HandlerControl(control, vector);
    }

    /** A store that leaves alone every entry a walk from the current root reads. */
    method WriteMemory(memory: Bus)
      requires Coherent()
      requires forall va, a :: a in WalkReads(read64, root, 2, va) ==> memory(a) == read64(a)
      modifies this`read64
      ensures Coherent() && read64 == memory
    {
      forall va: Word, access, user
        ensures Walk(memory, root, 2, va, access, user) == Walk(read64, root, 2, va, access, user)
      {
        WalkFrame(read64, memory, root, 2, va, access, user);
      }
      read64 := memory;
    }
  }
}
