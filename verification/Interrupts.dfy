/** Interrupt priority, delivery, nesting and return (host/emulator/cpu.cpp,
    host/emulator/interrupt_vectors.hpp), and the basic core's choice of IRQ
    (hdl/little64_cores/basic/core.py). */
module Interrupts {
  import opened Words
  import opened Bits
  import opened Control

  const FIRST_IRQ := 65
  const MAX_VECTOR := 127

  predicate IsExceptionVector(v: nat) { 1 <= v <= 9 }
  predicate IsIrqVector(v: nat) { FIRST_IRQ <= v <= MAX_VECTOR }

  // ---------------------------------------------------------------- choosing the vector

  /** The banks of pending and mask bits; bank 1 serves vectors 64..127. */
  datatype Banks = Banks(mask: Word, maskHigh: Word, states: Word, statesHigh: Word)

  /** Vectors that may be delivered; validIrqMaskForBank is zero for bank 0 and all but bit 0 for bank 1. */
  predicate Deliverable(b: Banks, v: nat) {
    IsIrqVector(v) && Bit(b.statesHigh, v - 64) && Bit(b.maskHigh, v - 64)
  }

  function PendingLow(b: Banks): Word { AND.Word64(AND.Word64(b.states, b.mask), 0) }
  function PendingHigh(b: Banks): Word { AND.Word64(AND.Word64(b.statesHigh, b.maskHigh), WORD_MAX - 1) }

  /** 0 stands for no vector. */
  function HighestPriority(b: Banks): nat {
    if PendingLow(b) != 0 then TrailingZeros(PendingLow(b))
    else if PendingHigh(b) != 0 then 64 + TrailingZeros(PendingHigh(b))
    else 0
  }

  lemma IrqMaskBits(k: nat)
    requires k < 64
    ensures Bit(WORD_MAX - 1, k) <==> k > 0
  {
    Pow2Of64();
    if k == 0 {
      BitZero(WORD_MAX - 1);
    } else {
      BitShift(WORD_MAX - 1, k);
      BitShift(WORD_MAX, k);
      OnesBelow(64, k);
    }
  }

  lemma PendingHighBits(b: Banks, k: nat)
    requires k < 64
    ensures Bit(PendingHigh(b), k) <==> Deliverable(b, 64 + k)
  {
    BitOfResult(AND, 64, b.statesHigh, b.maskHigh, k);
    BitOfResult(AND, 64, AND.Word64(b.statesHigh, b.maskHigh), WORD_MAX - 1, k);
    IrqMaskBits(k);
  }

  /** The vector chosen is the least deliverable one, and there is one whenever any is deliverable. */
  lemma HighestPriorityIsLeast(b: Banks)
    ensures HighestPriority(b) == 0 <==> forall v: nat :: !Deliverable(b, v)
    ensures HighestPriority(b) != 0 ==> Deliverable(b, HighestPriority(b)) && forall v: nat :: Deliverable(b, v) ==> HighestPriority(b) <= v
  {
    AndZero(64, AND.Word64(b.states, b.mask));
    var p := PendingHigh(b);
    if p == 0 {
      forall v: nat
        ensures !Deliverable(b, v)
      {
        if IsIrqVector(v) {
          PendingHighBits(b, v - 64);
          assert !Bit(0, v - 64);
        }
      }
    } else {
      LowestBit(p);
      var z := TrailingZeros(p);
      if z >= 64 {
        Pow2Of64();
        NoBitsIsZero(64, p);
      }
      PendingHighBits(b, z);
      forall v: nat | Deliverable(b, v)
        ensures 64 + z <= v
      {
        PendingHighBits(b, v - 64);
      }
    }
  }

  /** The basic core's loop over its interrupt inputs, from the highest down; the last assignment wins. */
  method ArbitrateBasicCore(pendingIrqHigh: Word, inputs: nat) returns (available: bool, vector: nat)
    requires 1 <= inputs <= 63
    ensures available <==> exists k :: 1 <= k <= inputs && Bit(pendingIrqHigh, k)
    ensures available ==> 65 <= vector <= 64 + inputs && Bit(pendingIrqHigh, vector - 64)
    ensures available ==> forall k :: 1 <= k < vector - 64 ==> !Bit(pendingIrqHigh, k)
    ensures !available ==> vector == 0
  {
    available, vector := false, 0;
    var bit := inputs;
    while bit > 0
      invariant 0 <= bit <= inputs
      invariant available <==> exists k :: bit < k <= inputs && Bit(pendingIrqHigh, k)
      invariant available ==> 64 + bit < vector <= 64 + inputs && Bit(pendingIrqHigh, vector - 64)
      invariant available ==> forall k :: bit < k < vector - 64 ==> !Bit(pendingIrqHigh, k)
      invariant !available ==> vector == 0
    {
      if Bit(pendingIrqHigh, bit) {
        available, vector := true, 64 + bit;
      }
      bit := bit - 1;
    }
  }

  /** With all 63 inputs and the same banks, the core picks the emulator's vector. */
  method ArbitrationAgrees(b: Banks) returns (vector: nat)
    ensures vector == HighestPriority(b)
  {
    var available;
    available, vector := ArbitrateBasicCore(PendingHigh(b), 63);
    ChosenIsHighest(b, available, vector);
  }

  lemma ChosenIsHighest(b: Banks, available: bool, vector: nat)
    requires available <==> exists k :: 1 <= k <= 63 && Bit(PendingHigh(b), k)
    requires available ==> 65 <= vector <= 127 && Bit(PendingHigh(b), vector - 64)
    requires available ==> forall k :: 1 <= k < vector - 64 ==> !Bit(PendingHigh(b), k)
    requires !available ==> vector == 0
    ensures vector == HighestPriority(b) && (available <==> vector != 0)
  {
    HighestPriorityIsLeast(b);
    if available {
      PendingHighBits(b, vector - 64);
      if HighestPriority(b) < vector {
        PendingHighBits(b, HighestPriority(b) - 64);
      }
    } else if HighestPriority(b) != 0 {
      PendingHighBits(b, HighestPriority(b) - 64);
    }
  }

  // ---------------------------------------------------------------- delivery

  /** What reading the handler table gives: the walk may fault, and a zero handler is no handler. */
  datatype Fetched = TableFault | Handler(address: Word)

  /** The trap registers that describe a fault. */
  datatype Detail = Detail(faultAddr: Word, access: Word, pc: Word, aux: Word)

  /** The state that delivery and return touch. */
  datatype Cpu = Cpu(
    control: Word,
    banks: Banks,
    tableBase: Word,
    epc: Word,
    eflags: Word,
    savedControl: Word,
    trapCause: nat,
    detail: Detail,
    pc: Word,
    flags: Word,
    running: bool
  )

  /** The caller's return address, or none to use the PC. */
  datatype Return = ToPc | To(address: Word)

  predicate Unmasked(b: Banks, v: nat) { IsIrqVector(v) && Bit(b.maskHigh, v - 64) }

  /** A handler in progress whose vector is at most v. */
  predicate Blocked(control: Word, v: nat) {
    InInterrupt(control) && CurrentVector(control) != 0 && CurrentVector(control) <= v
  }

  predicate Refused(s: Cpu, v: nat, exception: bool) {
    !exception && !(IsIrqVector(v) && InterruptEnabled(s.control) && Unmasked(s.banks, v))
  }

  function SetPending(b: Banks, v: nat): Banks {
    if IsIrqVector(v) && !Bit(b.statesHigh, v - 64) then b.(statesHigh := OR.Word64(b.statesHigh, OneBit(v - 64))) else b
  }

  function OneBit(k: nat): Word
    requires k < 64
  {
    Pow2Of64();
    Pow2Split(k, 64 - k);
    ProductGrows(Pow2(k), Pow2(64 - k));
    Pow2(k)
  }

  lemma ProductGrows(p: nat, q: nat)
    requires p >= 1 && q >= 2
    ensures p < p * q
  {
  }

  /** The state and result of raising vector v. */
  function Raise(s: Cpu, v: nat, exception: bool, ret: Return, fetch: Word -> Fetched): (Cpu, bool)
    requires v < 128
  {
    if Refused(s, v, exception) then (s, false)
    else if Blocked(s.control, v) then
      (if exception && IsExceptionVector(CurrentVector(s.control)) then s.(running := false) else s, false)
    else
      match fetch(Plus(s.tableBase, v * 8))
      case TableFault =>
        if exception && !s.running then (s, false)
        else (s.(control := HandlerControl(s.control, v), savedControl := s.control, running := false), false)
      case Handler(address) =>
        if address == 0 then (s.(running := false), false)
        else
          (s.(control := HandlerControl(s.control, v), savedControl := s.control,
              banks := if exception then s.banks else SetPending(s.banks, v),
              epc := if ret.To? then ret.address else s.pc,
              eflags := s.flags,
              trapCause := if exception && s.trapCause == 0 then v else s.trapCause,
              pc := address), true)
  }

  // ---------------------------------------------------------------- what raising a vector comes to

  /** Bit k of cpu_control in a handler for v: interrupts off, in-interrupt, the vector, supervisor mode. */
  predicate HandlerBit(control: Word, v: nat, k: nat) {
    if k == 0 || k == 17 then false else if k == 1 then true else if k < 9 then Bit(v, k - 2) else Bit(control, k)
  }

  /** Raising v in state s came to s': the handler at the word tableBase + 8 * v is entered exactly when v
      may be delivered, does not interrupt its betters, and has one; otherwise the state says why not. */
  ghost predicate RaiseCameTo(s: Cpu, v: nat, exception: bool, ret: Return, fetch: Word -> Fetched, s': Cpu, entered: bool)
    requires v < 128
  {
    var admitted := exception || (v >= 65 && s.control % 2 == 1 && Bit(s.banks.maskHigh, v - 64));
    var blocked := s.control / 2 % 2 == 1 && 0 < s.control / 4 % 128 <= v;
    var word := fetch((s.tableBase + 8 * v) % 0x1_0000_0000_0000_0000);
    && (entered <==> admitted && !blocked && word.Handler? && word.address != 0)
    && (entered ==>
          && s'.pc == word.address && s'.epc == (if ret.To? then ret.address else s.pc)
          && s'.eflags == s.flags && s'.savedControl == s.control
          && (forall k :: 0 <= k < 64 ==> (Bit(s'.control, k) <==> HandlerBit(s.control, v, k)))
          && (forall k :: 0 <= k < 64 ==> (Bit(s'.banks.statesHigh, k) <==> Bit(s.banks.statesHigh, k) || (!exception && k == v - 64)))
          && s'.trapCause == (if exception && s.trapCause == 0 then v else s.trapCause)
          && s' == s.(pc := s'.pc, epc := s'.epc, eflags := s'.eflags, savedControl := s'.savedControl, control := s'.control,
                      banks := s.banks.(statesHigh := s'.banks.statesHigh), trapCause := s'.trapCause))
    && (!admitted ==> s' == s)
    && (admitted && blocked ==> s' == s.(running := s.running && !(exception && s.control / 4 % 128 <= 9)))
    && (admitted && !blocked && word.TableFault? ==>
          if exception && !s.running then s' == s
          else s' == s.(control := s'.control, savedControl := s.control, running := false)
               && forall k :: 0 <= k < 64 ==> (Bit(s'.control, k) <==> HandlerBit(s.control, v, k)))
    && (admitted && !blocked && word.Handler? && word.address == 0 ==> s' == s.(running := false))
  }

  lemma HandlerControlBits64(control: Word, v: nat)
    requires v < 128
    ensures forall k :: 0 <= k < 64 ==> (Bit(HandlerControl(control, v), k) <==> HandlerBit(control, v, k))
  {
    hide Bit, HandlerControl, Pow2;
    forall k | 0 <= k < 64
      ensures Bit(HandlerControl(control, v), k) <==> HandlerBit(control, v, k)
    {
      HandlerControlBit(control, v, k);
      MaskPowers();
      BitOfParts(v, 0, 2, k);
      NoHighBits(k);
      if k >= 9 {
        NoBitsAbove(7, v, k - 2);
      }
    }
  }

  lemma TableSlot(base: Word, v: nat)
    requires v < 128
    ensures Plus(base, v * 8) == (base + 8 * v) % 0x1_0000_0000_0000_0000
  {
    if base + 8 * v >= 0x1_0000_0000_0000_0000 {
      DivModUnique(base + 8 * v, 0x1_0000_0000_0000_0000, 1, base + 8 * v - 0x1_0000_0000_0000_0000);
    }
  }

  /** Different vectors read disjoint words of the table. */
  lemma TableSlotsApart(base: Word, v: nat, i: nat, u: nat, j: nat)
    requires v < 128 && u < 128 && v != u && i < 8 && j < 8
    ensures (base + 8 * v + i) % 0x1_0000_0000_0000_0000 != (base + 8 * u + j) % 0x1_0000_0000_0000_0000
  {
  }

  lemma PendingAfter(b: Banks, v: nat)
    requires v < 128
    ensures
      forall k :: 0 <= k < 64 ==>
        (Bit(SetPending(b, v).statesHigh, k) <==> Bit(b.statesHigh, k) || (v >= 65 && k == v - 64))
    ensures SetPending(b, v) == b.(statesHigh := SetPending(b, v).statesHigh)
  {
    hide Bit, BitOp.Word64;
    if IsIrqVector(v) && !Bit(b.statesHigh, v - 64) {
      forall k | 0 <= k < 64
        ensures Bit(SetPending(b, v).statesHigh, k) <==> Bit(b.statesHigh, k) || k == v - 64
      {
        BitOfUnion(b.statesHigh, v - 64, k);
      }
    }
  }

  lemma RaiseOutcome(s: Cpu, v: nat, exception: bool, ret: Return, fetch: Word -> Fetched)
    requires v < 128
    ensures RaiseCameTo(s, v, exception, ret, fetch, Raise(s, v, exception, ret, fetch).0, Raise(s, v, exception, ret, fetch).1)
  {
    hide Bit, HandlerControl, SetPending;
    TableSlot(s.tableBase, v);
    HandlerControlBits64(s.control, v);
    PendingAfter(s.banks, v);
  }

  /** IRET in supervisor mode. */
  function Resume(s: Cpu): Cpu { s.(pc := s.epc, flags := s.eflags, control := s.savedControl) }

  /** The CPU's interrupt state as an object, in the order the source updates it. */
  class InterruptUnit {
    var control: Word
    var banks: Banks
    var tableBase: Word
    var epc: Word
    var eflags: Word
    var savedControl: Word
    var trapCause: nat
    var detail: Detail
    var pc: Word
    var flags: Word
    var running: bool

    function State(): Cpu
      reads this
    {
      Cpu(control, banks, tableBase, epc, eflags, savedControl, trapCause, detail, pc, flags, running)
    }

    constructor (s: Cpu)
      ensures State() == s
    {
      control, banks, tableBase, epc, eflags := s.control, s.banks, s.tableBase, s.epc, s.eflags;
      savedControl, trapCause, detail, pc, flags, running := s.savedControl, s.trapCause, s.detail, s.pc, s.flags, s.running;
    }

    /** The four setters. */
    method EnterHandlerMode(v: nat)
      requires v < 128
      modifies this`control
      ensures control == HandlerControl(old(control), v)
    {
      hide HandlerControl, WithoutUserMode, WithInInterrupt, WithoutInterrupts, WithVector;
      EntriesAgree(control, v);
      control := WithoutUserMode(control);
      control := WithInInterrupt(control);
      control := WithoutInterrupts(control);
      control := WithVector(control, v);
    }

    /** The checks before delivery; an exception inside an exception handler stops the CPU. */
    method Admit(v: nat, exception: bool) returns (admitted: bool)
      modifies this`running
      ensures admitted <==> !Refused(old(State()), v, exception) && !Blocked(control, v)
      ensures running == (old(running) && !(!Refused(old(State()), v, exception) && Blocked(control, v) && exception && IsExceptionVector(CurrentVector(control))))
    {
      hide Bit;
      if !exception {
        if !IsIrqVector(v) || !InterruptEnabled(control) || !Unmasked(banks, v) {
          return false;
        }
      }
      if InInterrupt(control) {
        var current := CurrentVector(control);
        if current != 0 && current <= v {
          if exception && IsExceptionVector(current) {
            running := false;
          }
          return false;
        }
      }
      return true;
    }

    /** The source snapshots cpu_control, enters the handler state, and backs out of it when the
        table gives no handler. */
    method RaiseInterrupt(v: nat, exception: bool, ret: Return, fetch: Word -> Fetched) returns (entered: bool)
      requires v < 128
      modifies this
      ensures (State(), entered) == Raise(old(State()), v, exception, ret, fetch)
      ensures RaiseCameTo(old(State()), v, exception, ret, fetch, State(), entered)
    {
      hide Bit, HandlerControl, SetPending, Unmasked, InInterrupt, InterruptEnabled, CurrentVector, RaiseCameTo;
      RaiseOutcome(State(), v, exception, ret, fetch);
      var admitted := Admit(v, exception);
      if !admitted {
        return false;
      }
      var oldControl, oldSaved, oldCause, oldDetail := control, savedControl, trapCause, detail;
      savedControl := control;
      EnterHandlerMode(v);
      match fetch(Plus(tableBase, v * 8))
      case TableFault =>
        if exception && !running {
          control, savedControl, trapCause, detail := oldControl, oldSaved, oldCause, oldDetail;
        }
        running := false;
        return false;
      case Handler(address) =>
        if address == 0 {
          control, savedControl := oldControl, oldSaved;
          running := false;
          return false;
        }
        if !exception {
          banks := SetPending(banks, v);
        }
        epc := if ret.To? then ret.address else pc;
        eflags := flags;
        if exception && trapCause == 0 {
          trapCause := v;
        }
        pc := address;
        return true;
    }

    /** A failed translation: its cause and details go to the trap registers before it is raised. */
    method RaiseFault(cause: nat, d: Detail, fetch: Word -> Fetched) returns (entered: bool)
      requires IsExceptionVector(cause)
      modifies this
      ensures (State(), entered) == Raise(old(State()).(trapCause := cause, detail := d), cause, true, To(d.pc), fetch)
      ensures RaiseCameTo(old(State()).(trapCause := cause, detail := d), cause, true, To(d.pc), fetch, State(), entered)
      ensures trapCause == cause && detail == d
    {
      hide HandlerControl, SetPending, RaiseCameTo;
      trapCause, detail := cause, d;
      entered := RaiseInterrupt(cause, true, To(d.pc), fetch);
    }

    /** The end of a cycle: a pending unmasked IRQ is raised when interrupts are on. */
    method DeliverPending(fetch: Word -> Fetched) returns (vector: nat, entered: bool)
      modifies this
      ensures (State(), vector, entered) == Deliver(old(State()), fetch)
      ensures
        var s := old(State());
        if s.control % 2 == 0 || forall v: nat :: !Deliverable(s.banks, v) then State() == s && !entered
        else
          && Deliverable(s.banks, vector) && (forall v: nat :: Deliverable(s.banks, v) ==> vector <= v)
          && RaiseCameTo(s, vector, false, ToPc, fetch, State(), entered)
    {
      hide Raise, Bit, RaiseCameTo, HighestPriority;
      vector, entered := 0, false;
      if InterruptEnabled(control) {
        HighestPriorityIsLeast(banks);
        vector := HighestPriority(banks);
        if vector != 0 {
          entered := RaiseInterrupt(vector, false, ToPc, fetch);
        }
      }
    }
  }

  function Deliver(s: Cpu, fetch: Word -> Fetched): (Cpu, nat, bool) {
    if !InterruptEnabled(s.control) then (s, 0, false)
    else
      HighestPriorityIsLeast(s.banks);
      var v := HighestPriority(s.banks);
      if v == 0 then (s, 0, false)
      else
        var (s', entered) := Raise(s, v, false, ToPc, fetch);
        (s', v, entered)
  }

  /** An IRQ handler is only ever entered for the least deliverable vector. */
  lemma DeliveredIsLeast(s: Cpu, fetch: Word -> Fetched)
    ensures
      var (s', v, entered) := Deliver(s, fetch);
      && (entered ==> Deliverable(s.banks, v) && forall u: nat :: Deliverable(s.banks, u) ==> v <= u)
      && (entered ==> CurrentVector(s'.control) == v && InInterrupt(s'.control))
  {
    hide HandlerControl, Bit, HighestPriority;
    HighestPriorityIsLeast(s.banks);
    if HighestPriority(s.banks) != 0 {
      HandlerControlBits(s.control, HighestPriority(s.banks));
    }
  }

  /** Raising never loses a pending IRQ: afterwards a vector is pending exactly when it was, or when it
      is the IRQ whose handler was entered. */
  lemma RaiseKeepsPending(s: Cpu, v: nat, exception: bool, ret: Return, fetch: Word -> Fetched, k: nat)
    requires v < 128 && k < 64
    ensures
      var (s', entered) := Raise(s, v, exception, ret, fetch);
      && (Bit(s'.banks.statesHigh, k) <==> Bit(s.banks.statesHigh, k) || (entered && !exception && k == v - 64))
      && s'.banks.maskHigh == s.banks.maskHigh
  {
    hide Bit, HandlerControl, BitOp.Word64;
    if IsIrqVector(v) && !Bit(s.banks.statesHigh, v - 64) {
      BitOfUnion(s.banks.statesHigh, v - 64, k);
    }
  }

  lemma BitOfUnion(w: Word, j: nat, k: nat)
    requires j < 64 && k < 64
    ensures Bit(OR.Word64(w, OneBit(j)), k) <==> Bit(w, k) || j == k
  {
    BitOfResult(OR, 64, w, OneBit(j), k);
    BitOfPower(j, k);
  }

  // ---------------------------------------------------------------- acceptance in the basic core

  /** The vector field as the core extracts it. */
  function CoreVector(control: Word): nat { AND.Word64(control, CUR_INT_MASK) / 4 }

  lemma CoreVectorIsField(control: Word)
    ensures CoreVector(control) == CurrentVector(control)
  {
    hide Bit, BitOp.Word64, Pow2;
    var high, v, r := control / 512, CurrentVector(control), control % 4;
    Pow2Of64();
    ModuloSplit(control, 4, 128);
    forall k | 0 <= k < 64
      ensures Bit(AND.Word64(control, CUR_INT_MASK), k) <==> Bit(4 * v, k)
    {
      AndBit(control, CUR_INT_MASK, k);
      FieldBits(0, k);
      MiddleField(high, v, r, k);
    }
    SameBits(64, AND.Word64(control, CUR_INT_MASK), 4 * v);
    DivModUnique(4 * v, 4, v, 0);
  }

  /** Bits 8..2 of a number are its middle part. */
  lemma MiddleField(high: nat, v: nat, r: nat, k: nat)
    requires v < 128 && r < 4
    ensures Bit(512 * high + 4 * v + r, k) && 2 <= k < 9 <==> Bit(4 * v, k)
  {
    hide Bit, Pow2;
    MaskPowers();
    BitOfParts(high, 4 * v + r, 9, k);
    BitOfParts(v, r, 2, k);
    BitOfParts(v, 0, 2, k);
    NoHighBits(k);
    if k >= 9 {
      NoBitsAbove(7, v, k - 2);
    }
  }

  lemma CoreModeBits(control: Word)
    ensures Bit(control, 0) == InterruptEnabled(control) && Bit(control, 1) == InInterrupt(control)
  {
    BitZero(control);
    BitShift(control, 1);
    BitZero(control / 2);
  }

  /** Before a fetch the core takes the IRQ its loop chose, when interrupts are on and the handler in
      progress, if any, has a greater vector: in the same states as the emulator, and the same IRQ. */
  method CoreTakes(s: Cpu) returns (takes: bool, vector: nat)
    ensures vector == HighestPriority(s.banks)
    ensures takes <==> vector != 0 && !Refused(s, vector, false) && !Blocked(s.control, vector)
  {
    hide Bit, BitOp.Word64, CoreVector, InterruptEnabled, InInterrupt, CurrentVector, HighestPriority, PendingHigh;
    var available;
    available, vector := ArbitrateBasicCore(PendingHigh(s.banks), 63);
    ChosenIsHighest(s.banks, available, vector);
    HighestPriorityIsLeast(s.banks);
    CoreVectorIsField(s.control);
    CoreModeBits(s.control);
    takes := available && Bit(s.control, 0) && (!Bit(s.control, 1) || CoreVector(s.control) == 0 || CoreVector(s.control) > vector);
  }

  // ---------------------------------------------------------------- nesting

  /** Between IRETs: an attempt to raise, or anything that keeps the in-interrupt and vector bits. */
  datatype Action = Try(vector: nat, exception: bool, ret: Return, fetch: Word -> Fetched) | Other(after: Cpu)

  predicate Legal(s: Cpu, a: Action) {
    match a
    case Try(v, exception, _, _) => v < 128 && (exception ==> IsExceptionVector(v))
    case Other(after) => InInterrupt(after.control) == InInterrupt(s.control) && CurrentVector(after.control) == CurrentVector(s.control)
  }

  function After(s: Cpu, a: Action): Cpu
    requires Legal(s, a)
  {
    match a
    case Try(v, exception, ret, fetch) => Raise(s, v, exception, ret, fetch).0
    case Other(after) => after
  }

  predicate Enters(s: Cpu, a: Action)
    requires Legal(s, a)
  {
    a.Try? && Raise(s, a.vector, a.exception, a.ret, a.fetch).1
  }

  ghost predicate LegalRun(s: Cpu, actions: seq<Action>)
    decreases |actions|
  {
    actions == [] || (Legal(s, actions[0]) && LegalRun(After(s, actions[0]), actions[1..]))
  }

  /** The vectors of the handlers entered, in order, while the CPU has not locked up. */
  ghost function Entered(s: Cpu, actions: seq<Action>): seq<nat>
    requires LegalRun(s, actions)
    decreases |actions|
  {
    if actions == [] || !s.running then []
    else
      var rest := Entered(After(s, actions[0]), actions[1..]);
      if Enters(s, actions[0]) then [actions[0].vector] + rest else rest
  }

  /** The position of a raisable vector among exceptions 1..9 and IRQs 65..127. */
  function Rank(v: nat): nat { if v >= FIRST_IRQ then v - 55 else v }

  predicate Raisable(v: nat) { IsExceptionVector(v) || IsIrqVector(v) }

  predicate StrictlyDecreasing(vs: seq<nat>) {
    forall i, j :: 0 <= i < j < |vs| ==> vs[i] > vs[j]
  }

  /** What is in progress, or a bound above every vector. */
  function Ceiling(s: Cpu): nat {
    if InInterrupt(s.control) && CurrentVector(s.control) != 0 then CurrentVector(s.control) else 128
  }

  lemma ActionLowersCeiling(s: Cpu, a: Action)
    requires Legal(s, a)
    ensures Enters(s, a) ==> Raisable(a.vector) && a.vector < Ceiling(s) && Ceiling(After(s, a)) == a.vector
    ensures !Enters(s, a) && After(s, a).running ==> Ceiling(After(s, a)) == Ceiling(s)
  {
    hide HandlerControl, Bit, SetPending, InInterrupt, CurrentVector;
    if a.Try? {
      HandlerControlBits(s.control, a.vector);
    }
  }

  /** Without an IRET each handler entered has a strictly smaller vector than the one it interrupts. */
  lemma {:induction false} EntriesDecrease(s: Cpu, actions: seq<Action>)
    requires LegalRun(s, actions)
    ensures
      var vs := Entered(s, actions);
      && StrictlyDecreasing(vs)
      && forall k :: 0 <= k < |vs| ==> Raisable(vs[k]) && vs[k] < Ceiling(s)
    decreases |actions|
  {
    hide After, Enters, Legal, Ceiling, Raisable;
    if actions != [] && s.running {
      var a := actions[0];
      EntriesDecrease(After(s, a), actions[1..]);
      ActionLowersCeiling(s, a);
      if !Enters(s, a) && !After(s, a).running {
        assert Entered(After(s, a), actions[1..]) == [];
      }
    }
  }

  lemma {:induction false} DecreasingIsShort(vs: seq<nat>)
    requires StrictlyDecreasing(vs) && forall k :: 0 <= k < |vs| ==> Raisable(vs[k])
    ensures vs != [] ==> |vs| <= Rank(vs[0])
  {
    if |vs| > 1 {
      DecreasingIsShort(vs[1..]);
    }
  }

  /** So handlers nest at most 72 deep: nine exceptions and sixty-three IRQs. */
  lemma NestingBound(s: Cpu, actions: seq<Action>)
    requires LegalRun(s, actions)
    ensures |Entered(s, actions)| <= 72
  {
    EntriesDecrease(s, actions);
    DecreasingIsShort(Entered(s, actions));
  }

  /** No IRQ preempts an exception handler, whatever the table holds. */
  lemma ExceptionsAreNotPreempted(s: Cpu, v: nat, ret: Return, fetch: Word -> Fetched)
    requires v < 128 && InInterrupt(s.control) && IsExceptionVector(CurrentVector(s.control))
    ensures Raise(s, v, false, ret, fetch) == (s, false)
  {
  }

  // ---------------------------------------------------------------- return

  /** A stretch of handler execution with no trap taken and no write to cpu_control or the saved registers. */
  predicate Undisturbed(s: Cpu, s': Cpu) {
    s'.control == s.control && s'.epc == s.epc && s'.eflags == s.eflags && s'.savedControl == s.savedControl
  }

  /** Entry, an undisturbed handler, IRET: the interrupted code resumes where and as it was. */
  lemma EntryThenIretResumes(s: Cpu, v: nat, exception: bool, ret: Return, fetch: Word -> Fetched, atIret: Cpu)
    requires v < 128
    requires Raise(s, v, exception, ret, fetch).1
    requires Undisturbed(Raise(s, v, exception, ret, fetch).0, atIret)
    ensures !UserMode(atIret.control)
    ensures
      var resumed := Resume(atIret);
      resumed.control == s.control && resumed.flags == s.flags && resumed.pc == (if ret.To? then ret.address else s.pc)
  {
    hide HandlerControl;
    HandlerControlBits(s.control, v);
  }
}
