/** The load-linked reservation over whole runs (host/emulator/cpu.cpp): what a store-conditional
    decides from one address and one bit is a fact about every access since the run began. */
module LoadLinked {
  import opened Words
  import opened Instructions
  import opened Beats
  import opened Emulator

  /** What a cycle does that matters to a reservation. */
  datatype Access = Quiet | Linked(addr: Word) | Conditional | Stored(addr: Word, width: nat)

  /** Byte x is one of the w bytes from a upwards, wrapping round the address space. */
  predicate Touches(a: Word, w: nat, x: Word) { Minus(x, a) < w }

  /** The w bytes at a meet the eight bytes at r. */
  ghost predicate Shares(r: Word, a: Word, w: nat) { exists y: Word :: Touches(r, 8, y) && Touches(a, w, y) }

  /** The access of the next instruction, read off its operands alone. */
  function NextAccess(e: Arch): Access {
    var i, regs := Fetch(e.mem, e.regs[15]), Fetched(e).regs;
    var op, rd, rs1 := LsOpcode(i), regs[Rd(i)], regs[Rs1(i)];
    var effective := Displace(regs[15], Signed(Rel6(i), 64) * 2);
    if Format(i) == 0 && IsStore(op) then Stored(Plus(rs1, Offset2(i) * 2), Width(op))
    else if Format(i) == 1 && IsStore(op) then Stored(effective, Width(op))
    else if Format(i) < 2 && op == PUSH then Stored(Minus(rd, 8), 8)
    else if Format(i) == 1 && op == POP then Stored(effective, 8)
    else if Format(i) == 3 && !IsLongJump(i) && GpOpcode(i) == LLR then Linked(rs1)
    else if Format(i) == 3 && !IsLongJump(i) && GpOpcode(i) == SCR then Conditional
    else Quiet
  }

  /** A step of a run: one instruction, or anything else the machine does between instructions (a
      trap, interrupt delivery, IRET, a special-register write, a device writing memory), none of
      which touches the reservation. */
  datatype Step = Execute | System(after: Arch)

  predicate Legal(e: Arch, s: Step) {
    match s
    case Execute => Modelled(Fetch(e.mem, e.regs[15]))
    case System(after) => after.llAddr == e.llAddr && after.llValid == e.llValid
  }

  function After(e: Arch, s: Step): Arch {
    match s
    case Execute => Cycle(e)
    case System(after) => after
  }

  function AccessOf(e: Arch, s: Step): Access { if s.Execute? then NextAccess(e) else Quiet }

  function Run(e: Arch, steps: seq<Step>): Arch {
    if steps == [] then e else After(Run(e, steps[..|steps| - 1]), steps[|steps| - 1])
  }

  predicate LegalRun(e: Arch, steps: seq<Step>) {
    steps == [] || (LegalRun(e, steps[..|steps| - 1]) && Legal(Run(e, steps[..|steps| - 1]), steps[|steps| - 1]))
  }

  function History(e: Arch, steps: seq<Step>): seq<Access> {
    if steps == [] then []
    else History(e, steps[..|steps| - 1]) + [AccessOf(Run(e, steps[..|steps| - 1]), steps[|steps| - 1])]
  }

  // ---------------------------------------------------------------- the interval test

  /** Where a wrapped end would lie. */
  const WRAP: int := 0x1_0000_0000_0000_0000

  /** The stores that the saturating test misses: those to a byte that the reservation wraps round to,
      and those that wrap round to a reserved byte. */
  predicate Missed(r: Word, a: Word, w: nat) { a <= r + 7 - WRAP || r <= a + w - 1 - WRAP }

  /** The source's interval test finds a shared byte unless the store is one of those it misses. */
  lemma OverlapIsSharedByte(r: Word, a: Word, w: nat)
    requires 0 < w <= 8
    ensures Shares(r, a, w) <==> Overlaps(r, a, w) || Missed(r, a, w)
    ensures !(Overlaps(r, a, w) && Missed(r, a, w))
  {
    if Overlaps(r, a, w) || Missed(r, a, w) {
      var y := if Minus(r, a) < w then r else a;
      assert Touches(r, 8, y) && Touches(a, w, y);
    }
  }

  /** The store's bytes stay below the top of the address space. */
  predicate Straight(a: Word, w: nat) { a + w <= WRAP }

  /** For stores that do not wrap the test is right, all of them considered, exactly when the reserved
      bytes do not wrap; for any stores, exactly when they also lie above the first seven bytes. */
  lemma TestIsRightExactlyWhen(r: Word)
    ensures (forall a: Word, w :: ValidWidth(w) && Straight(a, w) ==> (Shares(r, a, w) <==> Overlaps(r, a, w))) <==> r <= WRAP - 8
    ensures (forall a: Word, w :: ValidWidth(w) ==> (Shares(r, a, w) <==> Overlaps(r, a, w))) <==> 7 <= r <= WRAP - 8
  {
    hide Overlaps, Shares;
    forall a: Word, w | ValidWidth(w)
      ensures Shares(r, a, w) <==> Overlaps(r, a, w) || Missed(r, a, w)
      ensures !(Overlaps(r, a, w) && Missed(r, a, w))
    {
      OverlapIsSharedByte(r, a, w);
    }
    assert ValidWidth(1) && Straight(0, 1) && ValidWidth(8);
    assert r > WRAP - 8 ==> Missed(r, 0, 1);
    assert r < 7 ==> Missed(r, WORD_MAX, 8);
  }

  // ---------------------------------------------------------------- what a history reserves

  /** Nothing that ends a reservation of the eight bytes at a: no other link, no conditional, and no
      store that reaches one of those bytes. */
  ghost predicate Keeps(x: Access, a: Word) {
    match x
    case Quiet => true
    case Linked(_) => false
    case Conditional => false
    case Stored(b, w) => !Shares(a, b, w)
  }

  predicate IsMissed(x: Access, a: Word) { x.Stored? && Missed(a, x.addr, x.width) }

  /** The last link was to a and everything since keeps it. */
  ghost predicate Reserves(h: seq<Access>, a: Word) {
    exists k :: 0 <= k < |h| && h[k] == Linked(a) && forall j :: k < j < |h| ==> Keeps(h[j], a)
  }

  /** The last link was to a, and everything since keeps it but for stores that the test misses, of which
      there is one. */
  ghost predicate Outlives(h: seq<Access>, a: Word) {
    exists k ::
      && 0 <= k < |h| && h[k] == Linked(a)
      && (forall j :: k < j < |h| ==> Keeps(h[j], a) || IsMissed(h[j], a))
      && !(forall j :: k < j < |h| ==> Keeps(h[j], a))
  }

  ghost predicate Held(h: seq<Access>, a: Word) { Reserves(h, a) || Outlives(h, a) }

  /** Held: the last link was to a, and everything since keeps it or is missed. */
  lemma HeldSince(h: seq<Access>, a: Word)
    ensures Held(h, a) <==> exists k :: 0 <= k < |h| && h[k] == Linked(a) && forall j :: k < j < |h| ==> Keeps(h[j], a) || IsMissed(h[j], a)
  {
    if k :| 0 <= k < |h| && h[k] == Linked(a) && forall j :: k < j < |h| ==> Keeps(h[j], a) || IsMissed(h[j], a) {
      if forall j :: k < j < |h| ==> Keeps(h[j], a) {
        assert Reserves(h, a);
      } else {
        assert Outlives(h, a);
      }
    }
  }

  /** A reservation that outlived a store to its bytes is not one that was kept. */
  lemma KeptOrOutlived(h: seq<Access>, a: Word)
    ensures !(Reserves(h, a) && Outlives(h, a))
  {
  }

  lemma HeldStep(h: seq<Access>, x: Access, a: Word)
    ensures Held(h + [x], a) <==> x == Linked(a) || (Held(h, a) && (Keeps(x, a) || IsMissed(x, a)))
  {
    hide Keeps, IsMissed, Held;
    var h' := h + [x];
    HeldSince(h, a);
    HeldSince(h', a);
    if x == Linked(a) {
      assert h'[|h|] == Linked(a);
    } else {
      if Held(h', a) {
        var k :| 0 <= k < |h'| && h'[k] == Linked(a) && forall j :: k < j < |h'| ==> Keeps(h'[j], a) || IsMissed(h'[j], a);
        assert h'[|h|] == x;
        assert h[k] == Linked(a);
        assert forall j :: k < j < |h| ==> h[j] == h'[j];
      }
      if Held(h, a) && (Keeps(x, a) || IsMissed(x, a)) {
        var k :| 0 <= k < |h| && h[k] == Linked(a) && forall j :: k < j < |h| ==> Keeps(h[j], a) || IsMissed(h[j], a);
        assert h'[k] == Linked(a);
        assert forall j :: k < j < |h| ==> h'[j] == h[j];
      }
    }
  }

  ghost predicate WidthsValid(h: seq<Access>) { forall k :: 0 <= k < |h| && h[k].Stored? ==> ValidWidth(h[k].width) }

  /** The addresses at which no reservation ever outlives a store to its bytes. */
  lemma NeverOutlivesExactlyWhen(a: Word)
    ensures (forall h :: WidthsValid(h) ==> !Outlives(h, a)) <==> 7 <= a <= WRAP - 8
  {
    if 7 <= a <= WRAP - 8 {
      forall h | WidthsValid(h)
        ensures !Outlives(h, a)
      {
        assert forall k :: 0 <= k < |h| ==> !IsMissed(h[k], a);
      }
    } else {
      var x := if a < 7 then Stored(WORD_MAX, 8) else Stored(0, 1);
      var h := [Linked(a), x];
      OverlapIsSharedByte(a, x.addr, x.width);
      assert h[0] == Linked(a) && IsMissed(h[1], a) && !Keeps(h[1], a);
      assert WidthsValid(h) && Outlives(h, a);
    }
  }

  /** How one cycle moves the reservation. */
  lemma CycleReservation(e: Arch)
    ensures
      var e' := Cycle(e);
      match NextAccess(e)
      case Quiet => e'.llValid == e.llValid && e'.llAddr == e.llAddr
      case Linked(a) => e'.llValid && e'.llAddr == a
      case Conditional => !e'.llValid
      case Stored(a, w) => ValidWidth(w) && e'.llAddr == e.llAddr && e'.llValid == (e.llValid && !Overlaps(e.llAddr, a, w))
  {
    hide Alu, Load, Store, Fetch;
  }

  /** Over every run from a state with no reservation, the CPU holds a reservation of a exactly when
      the history says so: kept since the last link, or outliving a store that the test misses. */
  lemma {:induction false} ReservationIsHistory(e: Arch, steps: seq<Step>, a: Word)
    requires !e.llValid && LegalRun(e, steps)
    ensures
      var s, h := Run(e, steps), History(e, steps);
      && (s.llValid && s.llAddr == a <==> Reserves(h, a) || Outlives(h, a))
      && !(Reserves(h, a) && Outlives(h, a))
  {
    hide Cycle, NextAccess, Reserves, Outlives, Overlaps, Modelled, Missed;
    KeptOrOutlived(History(e, steps), a);
    if steps == [] {
      NothingReserved(a);
    } else {
      var init, last := steps[..|steps| - 1], steps[|steps| - 1];
      var s := Run(e, init);
      ReservationIsHistory(e, init, a);
      HeldStep(History(e, init), AccessOf(s, last), a);
      if last.Execute? {
        CycleReservation(s);
        if NextAccess(s).Stored? {
          OverlapIsSharedByte(a, NextAccess(s).addr, NextAccess(s).width);
        }
      }
    }
  }

  lemma NothingReserved(a: Word)
    ensures !Reserves([], a) && !Outlives([], a)
  {
  }

  lemma {:induction false} HistoryWidths(e: Arch, steps: seq<Step>)
    requires LegalRun(e, steps)
    ensures WidthsValid(History(e, steps))
  {
    hide Cycle, NextAccess;
    if steps != [] {
      HistoryWidths(e, steps[..|steps| - 1]);
      CycleReservation(Run(e, steps[..|steps| - 1]));
    }
  }

  /** The next instruction is a store-conditional of register Rd to address a. */
  predicate ConditionalAt(e: Arch, a: Word) {
    NextAccess(e) == Conditional && Fetched(e).regs[Rs1(Fetch(e.mem, e.regs[15]))] == a
  }

  lemma ConditionalOutcome(e: Arch, a: Word)
    requires ConditionalAt(e, a)
    ensures
      var e' := Cycle(e);
      var value := Fetched(e).regs[Rd(Fetch(e.mem, e.regs[15]))];
      && (e'.flags.z <==> e.llValid && e.llAddr == a)
      && !e'.llValid
      && e'.flags == e.flags.(z := e'.flags.z)
      && e'.mem == (if e'.flags.z then Store(e.mem, a, WidthSelect(8), Split(value)) else e.mem)
  {
    hide Alu, Load, Store, Fetch, Overlaps;
  }

  /** A store-conditional sets Z and stores exactly when the last load-linked was to its address, no
      store-conditional has executed since, and no store since has reached the reserved bytes but those
      the interval test misses, of which there are none unless the reserved bytes wrap or start in the
      first seven; either way it leaves no reservation. */
  lemma ConditionalSucceedsExactlyWhenReserved(e: Arch, steps: seq<Step>, a: Word)
    requires !e.llValid && LegalRun(e, steps) && ConditionalAt(Run(e, steps), a)
    ensures
      var s, h := Run(e, steps), History(e, steps);
      var s' := Cycle(s);
      var value := Fetched(s).regs[Rd(Fetch(s.mem, s.regs[15]))];
      && (s'.flags.z <==> Reserves(h, a) || Outlives(h, a))
      && (7 <= a <= WRAP - 8 ==> !Outlives(h, a))
      && s'.mem == (if s'.flags.z then Store(s.mem, a, WidthSelect(8), Split(value)) else s.mem)
      && !s'.llValid
  {
    hide Cycle, NextAccess, Reserves, Outlives;
    ReservationIsHistory(e, steps, a);
    ConditionalOutcome(Run(e, steps), a);
    HistoryWidths(e, steps);
    NeverOutlivesExactlyWhen(a);
  }

  /** A reservation of the last bytes of the address space does not cover the bytes it wraps round to:
      a store there leaves it valid although the reserved eight bytes include the one stored to. */
  lemma WrappedReservationMissesStore(e: Arch)
    requires e.llValid && e.llAddr == WORD_MAX && 0 in e.mem
    ensures
      var e' := Write(e, 0, 1, Plus(Peek(e.mem, 0), 1));
      e'.llValid && Block(e'.mem, WORD_MAX)[1] != Block(e.mem, WORD_MAX)[1]
  {
    var v := Plus(Peek(e.mem, 0), 1);
    assert Split(v)[0] == v % 0x100;
    assert Plus(WORD_MAX, 1) == 0;
    assert Peek(Store(e.mem, 0, WidthSelect(1), Split(v)), 0) == Split(v)[0];
  }

  /** A store of eight bytes at the last address wraps round to the first seven bytes and leaves a
      reservation of them valid. */
  lemma WrappedStoreIsMissed(e: Arch)
    requires e.llValid && e.llAddr == 0 && 0 in e.mem
    ensures
      var v := 0x100 * ((Peek(e.mem, 0) + 1) % 0x100);
      var e' := Write(e, WORD_MAX, 8, v);
      e'.llValid && Block(e'.mem, 0)[0] != Block(e.mem, 0)[0]
  {
    var b := (Peek(e.mem, 0) + 1) % 0x100;
    var v: Word := 0x100 * b;
    assert v / 0x100 == b;
    assert Split(v)[1] == Lanes(7, v / 0x100)[0] == b % 0x100;
    assert Minus(0, WORD_MAX) == 1;
    assert Peek(Store(e.mem, WORD_MAX, WidthSelect(8), Split(v)), 0) == Split(v)[1];
  }
}
