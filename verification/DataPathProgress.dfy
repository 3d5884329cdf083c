/** When the load/store unit and the bridge answer: exactly which slave latencies beat the watchdog, in
    which clock the answer comes, and that a prompt slave never sees a request fail. */
module DataPathProgress {
  import opened Words
  import opened Beats
  import opened DataPath
  import opened Overlap
  import L = Lsu
  import B = DataBridge

  // ---------------------------------------------------------------- one beat

  /** A slave that lets w clocks pass before it answers a beat is faster than the watchdog. */
  predicate InTime(limit: nat, w: nat) { limit == 0 || w + 2 < limit }

  predicate HasAnswer(i: Input) { i.slave.ack || i.slave.err }

  predicate AllWait(ins: seq<Input>) { forall k :: 0 <= k < |ins| ==> !HasAnswer(ins[k]) }

  /** No response up to, and not counting, the end of a run. */
  ghost predicate Unanswered(limit: nat, s: System, ins: seq<Input>)
    decreases |ins|
  {
    ins == [] || (Response(limit, s) == L.NoResponse && Unanswered(limit, Tick(limit, s, ins[0]), ins[1..]))
  }

  predicate Free(b: B.State) { b.phase == B.Idle && !b.responseValid }

  /** The unit is about to start a beat on a free bridge. */
  predicate Starting(s: System) { s.lsu.phase != L.Idle && !s.lsu.beatStarted && s.lsu.counter == 0 && Free(s.bridge) }

  function Count(limit: nat, n: nat): nat { if limit == 0 then 0 else n }

  /** The beat of l is on the bridge, and n clocks have gone by. */
  predicate Driven(limit: nat, l: L.State, s: System, n: nat) {
    && s.lsu == l.(beatStarted := true, counter := Count(limit, n))
    && s.bridge.phase == B.Beat0 && !s.bridge.responseValid && s.bridge.adr % 8 == 0
  }

  /** The beat of l has been answered after n clocks. */
  predicate Ended(limit: nat, l: L.State, s: System, n: nat, error: bool) {
    && s.lsu == l.(beatStarted := true, counter := Count(limit, n))
    && s.bridge.phase == B.Idle && s.bridge.responseValid && s.bridge.responseError == error
  }

  lemma BeatStarts(limit: nat, s: System, i: Input)
    requires Starting(s)
    ensures Driven(limit, s.lsu, Tick(limit, s, i), 1) && Response(limit, s) == L.NoResponse
  {
    hide ShiftedSelect, ShiftedData, Store, Block, SingleRead, CombinedRead, Split, Join, MaskToWidth, Load, WidthSelect, L.BaseSelect;
  }

  lemma BeatWaits(limit: nat, l: L.State, s: System, n: nat, i: Input)
    requires l.phase != L.Idle && Driven(limit, l, s, n) && (limit == 0 || n < limit) && !HasAnswer(i)
    ensures Driven(limit, l, Tick(limit, s, i), n + 1) && Response(limit, s) == L.NoResponse
  {
    hide ShiftedSelect, ShiftedData, Store, Block, SingleRead, CombinedRead, Split, Join, MaskToWidth, Load, WidthSelect, L.BaseSelect;
  }

  lemma BeatEnds(limit: nat, l: L.State, s: System, n: nat, i: Input)
    requires l.phase != L.Idle && Driven(limit, l, s, n) && (limit == 0 || n < limit) && HasAnswer(i) && Answers(s, i)
    ensures Ended(limit, l, Tick(limit, s, i), n + 1, i.slave.err) && Response(limit, s) == L.NoResponse
  {
    hide ShiftedSelect, ShiftedData, Store, Block, SingleRead, CombinedRead, Split, Join, MaskToWidth, Load, WidthSelect, L.BaseSelect;
    AlignedNeverSplits(B.TransferOf(s.bridge));
  }

  lemma {:induction false} BeatWaitsOn(limit: nat, l: L.State, s: System, n: nat, ins: seq<Input>)
    requires l.phase != L.Idle && Driven(limit, l, s, n) && AllWait(ins) && (limit == 0 || n + |ins| <= limit)
    ensures Driven(limit, l, After(limit, s, ins), n + |ins|) && Unanswered(limit, s, ins)
    decreases |ins|
  {
    hide Tick, Response, Driven;
    if ins != [] {
      BeatWaits(limit, l, s, n, ins[0]);
      BeatWaitsOn(limit, l, Tick(limit, s, ins[0]), n + 1, ins[1..]);
    }
  }

  lemma {:induction false} Joined(limit: nat, s: System, a: seq<Input>, b: seq<Input>)
    ensures After(limit, s, a + b) == After(limit, After(limit, s, a), b)
    ensures Unanswered(limit, s, a + b) <==> Unanswered(limit, s, a) && Unanswered(limit, After(limit, s, a), b)
    ensures Quietly(limit, s, a + b) <==> Quietly(limit, s, a) && Quietly(limit, After(limit, s, a), b)
    decreases |a|
  {
    hide Tick, Answers, Response;
    if a == [] {
      assert a + b == b;
    } else {
      assert (a + b)[1..] == a[1..] + b;
      Joined(limit, Tick(limit, s, a[0]), a[1..], b);
    }
  }

  lemma One(limit: nat, s: System, i: Input)
    ensures After(limit, s, [i]) == Tick(limit, s, i)
    ensures Unanswered(limit, s, [i]) <==> Response(limit, s) == L.NoResponse
    ensures Quietly(limit, s, [i]) <==> Answers(s, i) && i.req.NoRequest?
  {
    hide Tick, Answers, Response;
    assert [i][1..] == [];
  }

  /** A beat's clocks: the one that starts it, those the slave lets pass, and the one it answers in. */
  datatype BeatClocks = BeatClocks(first: Input, waits: seq<Input>, last: Input) {
    function Inputs(): seq<Input> { [first] + waits + [last] }
    predicate Proper() { AllWait(waits) && HasAnswer(last) }
  }

  /** A beat answered in time ends, unanswered until then. */
  lemma BeatInTime(limit: nat, s: System, c: BeatClocks)
    requires Starting(s) && c.Proper() && Quietly(limit, s, c.Inputs()) && InTime(limit, |c.waits|)
    ensures Ended(limit, s.lsu, After(limit, s, c.Inputs()), |c.waits| + 2, c.last.slave.err)
    ensures Unanswered(limit, s, c.Inputs())
  {
    hide Tick, Response, Driven, Ended, Answers;
    var s1 := Tick(limit, s, c.first);
    var e := After(limit, s1, c.waits);
    BeatStarts(limit, s, c.first);
    BeatWaitsOn(limit, s.lsu, s1, 1, c.waits);
    Joined(limit, s, [c.first], c.waits);
    Joined(limit, s, [c.first] + c.waits, [c.last]);
    One(limit, s, c.first);
    One(limit, e, c.last);
    BeatEnds(limit, s.lsu, e, 1 + |c.waits|, c.last);
  }

  /** Otherwise the watchdog answers with an error, `limit` clocks after the start. */
  lemma BeatTooLate(limit: nat, s: System, c: BeatClocks)
    requires Starting(s) && c.Proper() && Quietly(limit, s, c.Inputs()) && !InTime(limit, |c.waits|)
    ensures Unanswered(limit, s, c.Inputs()[..limit])
    ensures Response(limit, After(limit, s, c.Inputs()[..limit])) == L.Response(true, 0)
  {
    hide Tick, Answers;
    var s1 := Tick(limit, s, c.first);
    BeatStarts(limit, s, c.first);
    One(limit, s, c.first);
    if limit < |c.waits| + 2 {
      var waits := c.waits[..limit - 1];
      assert c.Inputs()[..limit] == [c.first] + waits;
      BeatWaitsOn(limit, s.lsu, s1, 1, waits);
      Joined(limit, s, [c.first], waits);
    } else {
      var e := After(limit, s1, c.waits);
      assert c.Inputs()[..limit] == c.Inputs();
      BeatWaitsOn(limit, s.lsu, s1, 1, c.waits);
      Joined(limit, s, [c.first], c.waits);
      Joined(limit, s, [c.first] + c.waits, [c.last]);
      One(limit, e, c.last);
      BeatEnds(limit, s.lsu, e, 1 + |c.waits|, c.last);
    }
  }

  // ---------------------------------------------------------------- one request

  /** The request i, taken in s, is answered without an error and is done. */
  ghost predicate Done(s: System, i: Input, e: System, r: L.Response)
    requires i.req.Request? && ValidWidth(i.req.width)
  {
    r.Response? && !r.error &&
    if i.req.write then e.mem == Store(s.mem, i.req.addr, WidthSelect(i.req.width), Split(i.req.value))
    else e.mem == s.mem && r.value == Load(s.mem, i.req.addr, i.req.width)
  }

  ghost predicate FailsAfter(limit: nat, s: System, ins: seq<Input>) {
    Unanswered(limit, s, ins) && Response(limit, After(limit, s, ins)) == L.Response(true, 0)
  }

  ghost predicate DoneAfter(limit: nat, s: System, i: Input, ins: seq<Input>)
    requires i.req.Request? && ValidWidth(i.req.width)
  {
    var s1 := Tick(limit, s, i);
    Unanswered(limit, s1, ins) && Done(s, i, After(limit, s1, ins), Response(limit, After(limit, s1, ins)))
  }

  /** Both units idle, and a request of an architected width. */
  predicate Accepts(s: System, i: Input) {
    s.lsu.phase == L.Idle && Free(s.bridge) && i.req.Request? && ValidWidth(i.req.width)
  }

  lemma RequestStarts(limit: nat, s: System, i: Input)
    requires Accepts(s, i)
    ensures
      var s1 := Tick(limit, s, i);
      && Starting(s1) && s1.lsu.phase == L.First && s1.mem == s.mem && Inv(s1, Serving(s.mem))
      && s1.lsu.addr == i.req.addr && s1.lsu.width == i.req.width && s1.lsu.write == i.req.write && s1.lsu.storeValue == i.req.value
  {
    hide ShiftedSelect, ShiftedData, Store, Block, SingleRead, CombinedRead, Split, Join, MaskToWidth, Load, WidthSelect, L.BaseSelect;
  }

  /** The unit still serves the request i. */
  predicate SameRequest(l: L.State, i: Input)
    requires i.req.Request?
  {
    l.addr == i.req.addr && l.width == i.req.width && l.write == i.req.write && l.storeValue == i.req.value
  }

  lemma RightIsDone(limit: nat, s: System, i: Input, ins: seq<Input>)
    requires Accepts(s, i) && Quietly(limit, Tick(limit, s, i), ins)
    ensures
      var e := After(limit, Tick(limit, s, i), ins);
      SameRequest(e.lsu, i) && Response(limit, e).Response? && !Response(limit, e).error ==> Done(s, i, e, Response(limit, e))
  {
    hide Tick, Inv, Answers, Response;
    RequestStarts(limit, s, i);
    QuietRunIsRight(limit, Tick(limit, s, i), Serving(s.mem), ins, s.mem);
  }

  /** A request of one beat, whatever the slave does: done, and in which clock, exactly when the slave
      answers in time and without an error. */
  lemma OneBeatRequest(limit: nat, s: System, i: Input, c: BeatClocks)
    requires Accepts(s, i) && !SplitNeeded(Asked(i.req)) && c.Proper() && Quietly(limit, Tick(limit, s, i), c.Inputs())
    ensures
      var s1 := Tick(limit, s, i);
      if !InTime(limit, |c.waits|) then FailsAfter(limit, s1, c.Inputs()[..limit])
      else if c.last.slave.err then FailsAfter(limit, s1, c.Inputs())
      else DoneAfter(limit, s, i, c.Inputs())
  {
    hide Tick, Inv, Answers, ShiftedSelect, ShiftedData, Store, Block, SingleRead, CombinedRead, Split, Join, MaskToWidth, Load, WidthSelect, L.BaseSelect;
    var s1 := Tick(limit, s, i);
    RequestStarts(limit, s, i);
    if !InTime(limit, |c.waits|) {
      BeatTooLate(limit, s1, c);
    } else {
      BeatInTime(limit, s1, c);
      assert L.TransferOf(s1.lsu) == Asked(i.req);
      RightIsDone(limit, s, i, c.Inputs());
    }
  }

  /** The clock in which the unit sees its first beat answered starts the second one. */
  lemma SecondStarts(limit: nat, l: L.State, s: System, n: nat, i: Input)
    requires l.phase == L.First && SplitNeeded(L.TransferOf(l)) && Ended(limit, l, s, n, false) && (limit == 0 || n < limit)
    ensures
      var s' := Tick(limit, s, i);
      && Starting(s') && s'.lsu == l.(phase := L.Second, beatStarted := false, counter := 0, firstData := s.bridge.responseData)
      && Response(limit, s) == L.NoResponse
  {
    hide ShiftedSelect, ShiftedData, Store, Block, SingleRead, CombinedRead, Split, Join, MaskToWidth, Load, WidthSelect, L.BaseSelect;
  }

  /** A request of two beats likewise; `turn` is the clock in between. */
  lemma TwoBeatRequest(limit: nat, s: System, i: Input, c: BeatClocks, turn: Input, d: BeatClocks)
    requires Accepts(s, i) && SplitNeeded(Asked(i.req)) && c.Proper() && d.Proper()
    requires Quietly(limit, Tick(limit, s, i), c.Inputs() + [turn] + d.Inputs())
    ensures
      var s1 := Tick(limit, s, i);
      if !InTime(limit, |c.waits|) then FailsAfter(limit, s1, c.Inputs()[..limit])
      else if c.last.slave.err then FailsAfter(limit, s1, c.Inputs())
      else if !InTime(limit, |d.waits|) then FailsAfter(limit, s1, c.Inputs() + [turn] + d.Inputs()[..limit])
      else if d.last.slave.err then FailsAfter(limit, s1, c.Inputs() + [turn] + d.Inputs())
      else DoneAfter(limit, s, i, c.Inputs() + [turn] + d.Inputs())
  {
    hide Tick, Inv, Answers, ShiftedSelect, ShiftedData, Store, Block, SingleRead, CombinedRead, Split, Join, MaskToWidth, Load, WidthSelect, L.BaseSelect;
    var s1 := Tick(limit, s, i);
    RequestStarts(limit, s, i);
    Joined(limit, s1, c.Inputs() + [turn], d.Inputs());
    Joined(limit, s1, c.Inputs(), [turn]);
    assert L.TransferOf(s1.lsu) == Asked(i.req);
    if !InTime(limit, |c.waits|) {
      BeatTooLate(limit, s1, c);
    } else {
      BeatInTime(limit, s1, c);
      if !c.last.slave.err {
        SecondBeat(limit, s, i, c, turn, d);
      }
    }
  }

  lemma SecondBeat(limit: nat, s: System, i: Input, c: BeatClocks, turn: Input, d: BeatClocks)
    requires Accepts(s, i) && SplitNeeded(Asked(i.req)) && c.Proper() && d.Proper()
    requires Quietly(limit, Tick(limit, s, i), c.Inputs() + [turn] + d.Inputs())
    requires InTime(limit, |c.waits|) && !c.last.slave.err
    ensures
      var s1 := Tick(limit, s, i);
      if !InTime(limit, |d.waits|) then FailsAfter(limit, s1, c.Inputs() + [turn] + d.Inputs()[..limit])
      else if d.last.slave.err then FailsAfter(limit, s1, c.Inputs() + [turn] + d.Inputs())
      else DoneAfter(limit, s, i, c.Inputs() + [turn] + d.Inputs())
  {
    hide Tick, Inv, Answers, ShiftedSelect, ShiftedData, Store, Block, SingleRead, CombinedRead, Split, Join, MaskToWidth, Load, WidthSelect, L.BaseSelect;
    var s1 := Tick(limit, s, i);
    var e1 := After(limit, s1, c.Inputs());
    var s2 := Tick(limit, e1, turn);
    RequestStarts(limit, s, i);
    assert L.TransferOf(s1.lsu) == Asked(i.req);
    Joined(limit, s1, c.Inputs() + [turn], d.Inputs());
    Joined(limit, s1, c.Inputs(), [turn]);
    One(limit, e1, turn);
    BeatInTime(limit, s1, c);
    SecondStarts(limit, s1.lsu, e1, |c.waits| + 2, turn);
    if !InTime(limit, |d.waits|) {
      BeatTooLate(limit, s2, d);
      Joined(limit, s1, c.Inputs() + [turn], d.Inputs()[..limit]);
    } else {
      BeatInTime(limit, s2, d);
      RightIsDone(limit, s, i, c.Inputs() + [turn] + d.Inputs());
    }
  }

  // ---------------------------------------------------------------- every run of a prompt slave

  /** The slave reports no error, and answers before the clock in which the watchdog would count too far. */
  predicate Prompt(limit: nat, s: System, i: Input) {
    && !i.slave.err
    && (limit > 0 && B.Driving(s.bridge) && s.lsu.counter + 2 >= limit ==> i.slave.ack)
  }

  /** Nothing abandoned, no error under way, and the watchdog short of its limit. */
  predicate InHand(limit: nat, s: System) {
    var l, b := s.lsu, s.bridge;
    && b.phase != B.Beat1 && (b.phase == B.Beat0 ==> !b.responseValid)
    && (if l.phase == L.Idle || !l.beatStarted then Free(b) && (l.phase != L.Idle ==> l.counter == 0)
        else
          && !Free(b) && !B.CpuErr(b)
          && (limit > 0 ==> l.counter + (if b.responseValid then 1 else 2) <= limit))
  }

  lemma PromptClock(limit: nat, s: System, i: Input, p: Pending)
    requires limit != 1 && limit != 2
    requires InHand(limit, s) && Inv(s, p) && Answers(s, i) && Prompt(limit, s, i)
    ensures InHand(limit, Tick(limit, s, i))
    ensures !(Response(limit, s).Response? && Response(limit, s).error)
    ensures !OverlapsAbandoned(s, i)
  {
    hide ShiftedSelect, ShiftedData, Store, Block, SingleRead, CombinedRead, Split, Join, MaskToWidth, Load, WidthSelect, L.BaseSelect, Waiting, LsuOk, DoomedOk;
    if s.bridge.phase == B.Beat0 {
      AlignedNeverSplits(B.TransferOf(s.bridge));
    }
  }

  ghost predicate PromptRun(limit: nat, s: System, ins: seq<Input>)
    decreases |ins|
  {
    ins == [] ||
    (&& Answers(s, ins[0]) && Prompt(limit, s, ins[0]) && (ins[0].req.Request? ==> ValidWidth(ins[0].req.width))
     && PromptRun(limit, Tick(limit, s, ins[0]), ins[1..]))
  }

  ghost predicate AllSucceed(limit: nat, s: System, ins: seq<Input>)
    decreases |ins|
  {
    ins == [] || (!(Response(limit, s).Response? && Response(limit, s).error) && AllSucceed(limit, Tick(limit, s, ins[0]), ins[1..]))
  }

  /** Over every run from idle of a slave that is prompt, with any watchdog limit but one and two, every
      response is right and none is an error. */
  lemma {:induction false} PromptSlaveNeverFails(limit: nat, s: System, p: Pending, ins: seq<Input>)
    requires limit != 1 && limit != 2 && (p.Doomed? ==> p.limit == limit)
    requires InHand(limit, s) && Inv(s, p) && PromptRun(limit, s, ins)
    ensures AllSucceed(limit, s, ins) && RunRight(limit, s, p, ins)
    decreases |ins|
  {
    hide Tick, Inv, Answers, Right, Response, OverlapsAbandoned, InHand;
    if ins != [] {
      PromptClock(limit, s, ins[0], p);
      ClockIsRight(limit, s, ins[0], p);
      ServingIsActive(s, p);
      PromptSlaveNeverFails(limit, Tick(limit, s, ins[0]), Next(limit, s, ins[0], p), ins[1..]);
    }
  }

  lemma ResetIsInHand(limit: nat, s: System)
    requires s.lsu.phase == L.Idle && Free(s.bridge)
    ensures InHand(limit, s) && Inv(s, Quiet)
  {
  }
}
