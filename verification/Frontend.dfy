/** The v2 fetch frontend (hdl/little64_cores/v2/frontend.py): a one-line fetch buffer with a
    cancellable bus request and a watchdog. */
module Frontend {
  import opened Words

  datatype State = State(
    lineValid: bool,
    lineBase: Word,
    lineData: Line,
    requestValid: bool,
    requestCancelled: bool,
    requestLineBase: Word,
    counter: nat
  )

  /** The inputs of one cycle. */
  datatype Input = Input(
    pc: Word,
    invalidate: bool,
    updateLineValid: bool,
    updateLineData: Line,
    ack: bool,
    err: bool,
    data: Line
  )

  function LineHit(s: State, pc: Word): bool { s.lineValid && s.lineBase == Base(pc) }

  predicate InstructionValid(s: State, pc: Word) { LineHit(s, pc) }

  /** The halfword at pc[2:1] of the buffered line. */
  function InstructionWord(s: State, pc: Word): nat {
    var slot := pc / 2 % 4;
    s.lineData[2 * slot] as int + 0x100 * s.lineData[2 * slot + 1] as int
  }

  predicate Fires(limit: nat, s: State) { limit > 0 && s.requestValid && s.counter == limit }

  /** The registers after a clock edge; later assignments win. */
  function Step(limit: nat, s: State, i: Input): State {
    var err := i.err || Fires(limit, s);
    var counted := s.(counter := if limit > 0 && s.requestValid && !i.ack && !i.err && !Fires(limit, s) then s.counter + 1 else 0);
    var s1 := if i.invalidate then counted.(lineValid := false, requestCancelled := s.requestValid) else counted;
    if s.requestValid && (i.ack || err) then
      var done := s1.(requestValid := false, requestCancelled := false, lineValid := false);
      if i.ack && !err && !s.requestCancelled && !i.invalidate
      then done.(lineValid := true, lineBase := s.requestLineBase, lineData := i.data) else done
    else if !i.invalidate && i.updateLineValid then s1.(lineData := i.updateLineData)
    else if !i.invalidate && !LineHit(s, i.pc) && !s.requestValid then
      s1.(requestValid := true, requestCancelled := false, requestLineBase := Base(i.pc))
    else s1
  }

  /** The frontend as a clocked object. */
  class Unit {
    const limit: nat
    var lineValid: bool
    var lineBase: Word
    var lineData: Line
    var requestValid: bool
    var requestCancelled: bool
    var requestLineBase: Word
    var counter: nat

    function Registers(): State
      reads this
    {
      State(lineValid, lineBase, lineData, requestValid, requestCancelled, requestLineBase, counter)
    }

    constructor (limit: nat)
      ensures this.limit == limit && Registers() == State(false, 0, ZEROES, false, false, 0, 0)
    {
      this.limit := limit;
      lineValid, lineBase, lineData := false, 0, ZEROES;
      requestValid, requestCancelled, requestLineBase, counter := false, false, 0, 0;
    }

    method Clock(i: Input)
      modifies this
      ensures Registers() == Step(limit, old(Registers()), i)
    {
      var s := Registers();
      var fires := Fires(limit, s);
      var hit := LineHit(s, i.pc);
      if limit > 0 && requestValid && !i.ack && !i.err && !fires {
        counter := counter + 1;
      } else {
        counter := 0;
      }
      if i.invalidate {
        lineValid := false;
        requestCancelled := requestValid;
      }
      if s.requestValid && (i.ack || i.err || fires) {
        requestValid, requestCancelled, lineValid := false, false, false;
        if i.ack && !i.err && !fires && !s.requestCancelled && !i.invalidate {
          lineValid, lineBase, lineData := true, s.requestLineBase, i.data;
        }
      } else if !i.invalidate && i.updateLineValid {
        lineData := i.updateLineData;
      } else if !i.invalidate && !hit && !s.requestValid {
        requestValid, requestCancelled, requestLineBase := true, false, Base(i.pc);
      }
    }
  }

  // ---------------------------------------------------------------- the frontend on a changing memory

  /** `sampled` holds every value the requested line has had since the request started: the slave may
      have read it at any time before it answers. */
  datatype System = System(unit: State, mem: Memory, sampled: set<Line>)

  /** One cycle: the inputs and the memory from the next cycle on. */
  datatype Cycle = Cycle(input: Input, after: Memory)

  function Tick(limit: nat, s: System, c: Cycle): System {
    var u := Step(limit, s.unit, c.input);
    System(u, c.after,
           if !u.requestValid then {}
           else if s.unit.requestValid then s.sampled + {Block(c.after, u.requestLineBase)}
           else {Block(c.after, u.requestLineBase)})
  }

  /** A line-aligned address. */
  predicate IsLine(a: Word) { a % 8 == 0 }

  /** The port contract: answers were sampled during the request, and any write to memory comes with
      invalidate, or with the new contents of the one buffered line it touches. */
  ghost predicate Contract(s: System, c: Cycle) {
    var u, i := s.unit, c.input;
    && (u.requestValid && i.ack ==> i.data in s.sampled)
    && (!i.invalidate ==>
          if i.updateLineValid && u.lineValid
          then i.updateLineData == Block(c.after, u.lineBase) && forall a :: IsLine(a) && a != u.lineBase ==> Block(c.after, a) == Block(s.mem, a)
          else forall a :: IsLine(a) ==> Block(c.after, a) == Block(s.mem, a))
  }

  ghost predicate Inv(s: System) {
    var u := s.unit;
    && (u.lineValid ==> IsLine(u.lineBase) && u.lineData == Block(s.mem, u.lineBase))
    && (u.requestValid ==> IsLine(u.requestLineBase) && (u.lineValid ==> u.requestLineBase != u.lineBase))
    && (u.requestValid && !u.requestCancelled ==> s.sampled == {Block(s.mem, u.requestLineBase)})
  }

  lemma ClockKeepsInv(limit: nat, s: System, c: Cycle)
    requires Inv(s) && Contract(s, c)
    ensures Inv(Tick(limit, s, c))
  {
    hide Block;
    assert IsLine(Base(c.input.pc));
  }

  /** Whatever is delivered is the current memory halfword at the requested PC. */
  lemma DeliversCurrent(s: System, pc: Word)
    requires Inv(s) && InstructionValid(s.unit, pc) && pc % 2 == 0
    ensures InstructionWord(s.unit, pc) == Peek(s.mem, pc) as int + 0x100 * Peek(s.mem, Plus(pc, 1)) as int
  {
    var k := 2 * (pc / 2 % 4);
    assert Plus(Base(pc), k) == pc && Plus(Base(pc), k + 1) == Plus(pc, 1);
  }

  ghost predicate ContractRun(limit: nat, s: System, cycles: seq<Cycle>)
    decreases |cycles|
  {
    cycles == [] || (Contract(s, cycles[0]) && ContractRun(limit, Tick(limit, s, cycles[0]), cycles[1..]))
  }

  ghost predicate AlwaysCurrent(limit: nat, s: System, cycles: seq<Cycle>)
    decreases |cycles|
  {
    && (forall pc: Word :: pc % 2 == 0 && InstructionValid(s.unit, pc) ==>
          InstructionWord(s.unit, pc) == Peek(s.mem, pc) as int + 0x100 * Peek(s.mem, Plus(pc, 1)) as int)
    && (cycles == [] || AlwaysCurrent(limit, Tick(limit, s, cycles[0]), cycles[1..]))
  }

  /** For every interleaving of PC changes, requests, cancellations, errors, timeouts, line updates
      and writes, the halfword delivered is the one in memory now. */
  lemma {:induction false} RunDeliversCurrent(limit: nat, s: System, cycles: seq<Cycle>)
    requires Inv(s) && ContractRun(limit, s, cycles)
    ensures AlwaysCurrent(limit, s, cycles)
    decreases |cycles|
  {
    hide Tick, Contract, Inv, InstructionWord, InstructionValid, Peek;
    forall pc: Word | pc % 2 == 0 && InstructionValid(s.unit, pc)
      ensures InstructionWord(s.unit, pc) == Peek(s.mem, pc) as int + 0x100 * Peek(s.mem, Plus(pc, 1)) as int
    {
      DeliversCurrent(s, pc);
    }
    if cycles != [] {
      ClockKeepsInv(limit, s, cycles[0]);
      RunDeliversCurrent(limit, Tick(limit, s, cycles[0]), cycles[1..]);
    }
  }

  // ---------------------------------------------------------------- the watchdog bound

  predicate CounterOk(limit: nat, s: State) { s.counter <= limit && (!s.requestValid ==> s.counter == 0) }

  /** A request is in flight for as long as a run of inputs lasts. */
  ghost predicate InFlight(limit: nat, s: State, ins: seq<Input>)
    decreases |ins|
  {
    s.requestValid && (ins == [] || InFlight(limit, Step(limit, s, ins[0]), ins[1..]))
  }

  /** With the watchdog on, a request is in flight for at most limit + 1 cycles. */
  lemma {:induction false} InFlightBound(limit: nat, s: State, ins: seq<Input>)
    requires limit > 0 && CounterOk(limit, s) && InFlight(limit, s, ins)
    ensures |ins| + 1 <= limit + 1 - s.counter
    decreases |ins|
  {
    if ins != [] {
      assert Step(limit, s, ins[0]).requestValid;
      assert Step(limit, s, ins[0]).counter == s.counter + 1;
      InFlightBound(limit, Step(limit, s, ins[0]), ins[1..]);
    }
  }

  lemma CounterStaysOk(limit: nat, s: State, i: Input)
    requires limit > 0 && CounterOk(limit, s)
    ensures CounterOk(limit, Step(limit, s, i))
    ensures !s.requestValid && Step(limit, s, i).requestValid ==> Step(limit, s, i).counter == 0
  {
  }

  // ---------------------------------------------------------------- progress

  /** A miss with nothing in flight asks for the line of the PC in the next cycle. */
  lemma MissRequests(limit: nat, s: State, i: Input)
    requires !(s.lineValid && s.lineBase == i.pc / 8 * 8) && !s.requestValid && !i.invalidate && !i.updateLineValid
    ensures
      var s' := Step(limit, s, i);
      s'.requestValid && !s'.requestCancelled && s'.requestLineBase == i.pc / 8 * 8 && s'.counter == 0
  {
    BaseOf(i.pc);
  }

  function After(limit: nat, s: State, ins: seq<Input>): State
    decreases |ins|
  {
    if ins == [] then s else After(limit, Step(limit, s, ins[0]), ins[1..])
  }

  predicate Unanswered(ins: seq<Input>) { forall k :: 0 <= k < |ins| ==> !ins[k].ack && !ins[k].err }

  /** Some cycle of a run invalidates. */
  ghost predicate Cancels(ins: seq<Input>) { exists k :: 0 <= k < |ins| && ins[k].invalidate }

  lemma {:induction false} RequestWaits(limit: nat, s: State, ins: seq<Input>)
    requires s.requestValid && Unanswered(ins) && (limit > 0 ==> s.counter + |ins| <= limit)
    ensures
      var e := After(limit, s, ins);
      && e.requestValid && e.requestLineBase == s.requestLineBase
      && (e.requestCancelled <==> s.requestCancelled || Cancels(ins))
      && (limit > 0 ==> e.counter == s.counter + |ins|)
    decreases |ins|
  {
    if ins != [] {
      assert !ins[0].ack && !ins[0].err;
      RequestWaits(limit, Step(limit, s, ins[0]), ins[1..]);
      assert Cancels(ins) <==> ins[0].invalidate || Cancels(ins[1..]) by {
        if Cancels(ins) && !ins[0].invalidate {
          var k :| 0 <= k < |ins| && ins[k].invalidate;
          assert ins[1..][k - 1].invalidate;
        }
      }
    }
  }

  /** A request acknowledged after |waits| cycles is delivered in the next cycle exactly when the watchdog
      has left it time, no error came with the acknowledge and no cycle invalidated it; what is delivered
      is the acknowledged line, at the address asked for. */
  lemma DeliveredExactlyWhen(limit: nat, s: State, waits: seq<Input>, last: Input)
    requires s.requestValid && !s.requestCancelled && s.counter == 0 && Unanswered(waits) && last.ack
    requires limit == 0 || |waits| <= limit
    ensures
      var e := Step(limit, After(limit, s, waits), last);
      && !e.requestValid
      && (e.lineValid <==> (limit == 0 || |waits| < limit) && !last.err && !last.invalidate && !Cancels(waits))
      && (e.lineValid ==> e.lineBase == s.requestLineBase && e.lineData == last.data)
  {
    RequestWaits(limit, s, waits);
  }

  /** The watchdog gives a request up after exactly `limit` cycles without an answer. */
  lemma GivenUpExactlyAt(limit: nat, s: State, waits: seq<Input>, next: Input)
    requires limit > 0 && s.requestValid && s.counter == 0 && Unanswered(waits) && |waits| <= limit
    requires !next.ack && !next.err
    ensures
      var e := Step(limit, After(limit, s, waits), next);
      e.requestValid <==> |waits| < limit
  {
    RequestWaits(limit, s, waits);
  }

  /** A delivered line answers each PC in it with its two bytes there, low byte first. */
  lemma LineAnswers(s: State, pc: Word)
    requires s.lineValid && s.lineBase == pc / 8 * 8 && pc % 2 == 0
    ensures InstructionValid(s, pc)
    ensures InstructionWord(s, pc) == s.lineData[pc % 8] as int + 0x100 * s.lineData[pc % 8 + 1] as int
  {
    hide Base;
    BaseOf(pc);
    ModuloSplit(pc, 2, 4);
  }

  lemma BaseOf(a: Word)
    ensures Base(a) == a / 8 * 8
  {
  }

  /** A line in use stays, and follows its updates, until it is invalidated or the PC leaves it. */
  lemma LineStays(limit: nat, s: State, i: Input)
    requires s.lineValid && !s.requestValid && !i.invalidate && i.pc / 8 * 8 == s.lineBase
    ensures
      var s' := Step(limit, s, i);
      s'.lineValid && !s'.requestValid && s'.lineBase == s.lineBase && s'.lineData == if i.updateLineValid then i.updateLineData else s.lineData
  {
    BaseOf(i.pc);
  }
}
