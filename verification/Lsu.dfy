/** The v2 load/store unit (hdl/little64_cores/v2/lsu.py): IDLE / FIRST / SECOND with a bus watchdog. */
module Lsu {
  import opened Words
  import opened Beats

  datatype Phase = Idle | First | Second

  /** The clocked registers. */
  datatype State = State(
    phase: Phase,
    addr: Word,
    width: nat,
    write: bool,
    storeValue: Word,
    firstData: Line,
    beatStarted: bool,
    counter: nat
  )

  datatype Request = NoRequest | Request(addr: Word, width: nat, write: bool, value: Word)
  datatype BusIn = BusIn(ack: bool, err: bool, data: Line)
  datatype BusOut = BusOut(cyc: bool, adr: Word, sel: Select, dat: Line, we: bool)
  datatype Response = NoResponse | Response(error: bool, value: Word)

  /** The lanes of an unexpected width default to a full word. */
  function BaseSelect(width: nat): Select {
    if ValidWidth(width) then WidthSelect(width) else ALL
  }

  function TransferOf(s: State): Transfer { Transfer(s.addr, BaseSelect(s.width), Split(s.storeValue)) }

  predicate Active(s: State) { s.phase != Idle }

  /** The watchdog fires in the cycle its counter reaches a non-zero limit. */
  predicate Fires(limit: nat, s: State) { limit > 0 && Active(s) && s.counter == limit }

  function NextCounter(limit: nat, s: State, bus: BusIn): nat {
    if limit > 0 && Active(s) && !bus.ack && !bus.err && !Fires(limit, s) then s.counter + 1 else 0
  }

  function Outputs(s: State): BusOut {
    var t := TransferOf(s);
    if s.phase == Second then BusOut(Active(s), SecondAddr(t), SecondSelect(t), SecondData(t), s.write && Active(s))
    else BusOut(Active(s), FirstAddr(t), FirstSelect(t), FirstData(t), s.write && Active(s))
  }

  /** The registers after a clock edge. */
  function Step(limit: nat, s: State, req: Request, bus: BusIn): State {
    var s1 := s.(counter := NextCounter(limit, s, bus));
    if s.phase == Idle then
      if req.Request? then
        s1.(addr := req.addr, width := req.width, write := req.write, storeValue := req.value, beatStarted := false, phase := First)
      else s1
    else if !s.beatStarted then s1.(beatStarted := true)
    else if bus.err || Fires(limit, s) then s1.(phase := Idle)
    else if !bus.ack then s1
    else if s.phase == First && SplitNeeded(TransferOf(s)) then
      s1.(firstData := bus.data, beatStarted := false, phase := Second)
    else s1.(phase := Idle)
  }

  /** The response outputs in the cycle before that edge. */
  function Responds(limit: nat, s: State, bus: BusIn): Response {
    if s.phase == Idle || !s.beatStarted then NoResponse
    else if bus.err || Fires(limit, s) then Response(true, 0)
    else if !bus.ack then NoResponse
    else if s.phase == First then
      if SplitNeeded(TransferOf(s)) then NoResponse
      else Response(false, MaskToWidth(s.width, Join(SingleRead(TransferOf(s), bus.data))))
    else Response(false, MaskToWidth(s.width, Join(CombinedRead(TransferOf(s), s.firstData, bus.data))))
  }

  /** The unit as a clocked object. */
  class Unit {
    const limit: nat
    var phase: Phase
    var addr: Word
    var width: nat
    var write: bool
    var storeValue: Word
    var firstData: Line
    var beatStarted: bool
    var counter: nat

    function Registers(): State
      reads this
    {
      State(phase, addr, width, write, storeValue, firstData, beatStarted, counter)
    }

    constructor (limit: nat)
      ensures this.limit == limit && Registers() == State(Idle, 0, 0, false, 0, ZEROES, false, 0)
    {
      this.limit := limit;
      phase, addr, width, write, storeValue := Idle, 0, 0, false, 0;
      firstData, beatStarted, counter := ZEROES, false, 0;
    }

    method Clock(req: Request, bus: BusIn) returns (out: BusOut, response: Response)
      modifies this
      ensures Registers() == Step(limit, old(Registers()), req, bus)
      ensures out == Outputs(old(Registers())) && response == Responds(limit, old(Registers()), bus)
    {
      hide ShiftedSelect, ShiftedData, Join, MaskToWidth, SingleRead, CombinedRead;
      var s := Registers();
      var t := TransferOf(s);
      out := Outputs(s);
      response := NoResponse;
      var fires := Fires(limit, s);
      counter := NextCounter(limit, s, bus);
      if phase == Idle {
        if req.Request? {
          addr, width, write, storeValue := req.addr, req.width, req.write, req.value;
          beatStarted := false;
          phase := First;
        }
      } else if !beatStarted {
        beatStarted := true;
      } else if bus.err || fires {
        response := Response(true, 0);
        phase := Idle;
      } else if bus.ack {
        if phase == First {
          if SplitNeeded(t) {
            firstData := bus.data;
            beatStarted := false;
            phase := Second;
          } else {
            response := Response(false, MaskToWidth(width, Join(SingleRead(t, bus.data))));
            phase := Idle;
          }
        } else {
          response := Response(false, MaskToWidth(width, Join(CombinedRead(t, firstData, bus.data))));
          phase := Idle;
        }
      }
    }
  }

  // ---------------------------------------------------------------- the watchdog bound

  /** Cycles still allowed before a response: a beat takes one cycle to start and at most `limit` more
      before the watchdog answers. */
  function CyclesLeft(limit: nat, s: State): int {
    if s.phase == Idle then 0
    else (limit - s.counter + 1) + (if s.beatStarted then 0 else 1) + (if s.phase == First then limit + 2 else 0)
  }

  predicate CounterOk(limit: nat, s: State) { s.counter <= limit && (s.phase == Idle || !s.beatStarted ==> s.counter == 0) }

  /** Whatever the bus does, an active unit comes one cycle closer to its response. */
  lemma ClockCountsDown(limit: nat, s: State, req: Request, bus: BusIn)
    requires limit > 0 && CounterOk(limit, s)
    ensures CounterOk(limit, Step(limit, s, req, bus))
    ensures Active(s) && Responds(limit, s, bus) == NoResponse ==>
      0 < CyclesLeft(limit, Step(limit, s, req, bus)) < CyclesLeft(limit, s) && Active(Step(limit, s, req, bus))
    ensures Responds(limit, s, bus) != NoResponse ==> Active(s) && !Active(Step(limit, s, req, bus))
    ensures !Active(s) && req.Request? ==> CyclesLeft(limit, Step(limit, s, req, bus)) == 2 * (limit + 2)
  {
    hide ShiftedSelect, ShiftedData, Join, MaskToWidth, SingleRead, CombinedRead;
  }

  datatype Input = Input(req: Request, bus: BusIn)

  /** The unit is active throughout a run of inputs and never responds. */
  ghost predicate Silent(limit: nat, s: State, ins: seq<Input>)
    decreases |ins|
  {
    ins == [] ||
    (Active(s) && Responds(limit, s, ins[0].bus) == NoResponse
     && Silent(limit, Step(limit, s, ins[0].req, ins[0].bus), ins[1..]))
  }

  lemma {:induction false} SilenceIsBounded(limit: nat, s: State, ins: seq<Input>)
    requires limit > 0 && CounterOk(limit, s) && Active(s) && Silent(limit, s, ins)
    ensures |ins| < CyclesLeft(limit, s)
    decreases |ins|
  {
    hide Step, Responds;
    if ins != [] {
      ClockCountsDown(limit, s, ins[0].req, ins[0].bus);
      SilenceIsBounded(limit, Step(limit, s, ins[0].req, ins[0].bus), ins[1..]);
    }
  }

  /** With the watchdog on, an accepted request is answered within 2 * (limit + 2) cycles of any bus. */
  lemma WatchdogBound(limit: nat, s: State, req: Request, bus: BusIn, ins: seq<Input>)
    requires limit > 0 && CounterOk(limit, s) && s.phase == Idle && req.Request?
    requires Silent(limit, Step(limit, s, req, bus), ins)
    ensures |ins| < 2 * (limit + 2)
  {
    ClockCountsDown(limit, s, req, bus);
    SilenceIsBounded(limit, Step(limit, s, req, bus), ins);
  }
}
