/** The L64T trace file: what the writer (host/emulator/trace_writer.cpp) puts in it and how the decoder
    (tools/little64/little64/commands/trace.py) reads it. */
module TraceFile {
  import opened Words
  import opened Buffers

  const HEADER := 64
  const RECORD := 41
  const LIVE_TABLE := 4096
  const MAX_TAGS := 255
  const MAGIC: seq<Byte> := [0x4C, 0x36, 0x34, 0x54]

  type Name = seq<Byte>

  datatype Event = Event(tag: Name, cycle: Word, pc: Word, a: Word, b: Word, c: Word)

  // ---------------------------------------------------------------- tag numbers

  /** At most 255 different names, in the order they were first used. */
  ghost predicate Registry(names: seq<Name>) {
    |names| <= MAX_TAGS && forall i, j :: 0 <= i < j < |names| ==> names[i] != names[j]
  }

  function Register(names: seq<Name>, tag: Name): seq<Name> {
    if tag in names || |names| >= MAX_TAGS then names else names + [tag]
  }

  /** A tag's place in the registry, or 255. */
  function TagId(names: seq<Name>, tag: Name): (id: Byte)
    requires |names| <= MAX_TAGS
    ensures id as int < |names| <==> tag in names
    ensures id as int < |names| ==> names[id] == tag
    ensures tag !in names ==> id == 255
  {
    if names == [] then 255
    else
      var init := names[..|names| - 1];
      assert names == init + [names[|names| - 1]];
      if tag in init then TagId(init, tag)
      else if names[|names| - 1] == tag then |names| - 1
      else 255
  }

  /** Tag numbers are equal exactly when the tags are, for registered tags. */
  lemma TagIdsAreFaithful(names: seq<Name>, t: Name, t': Name)
    requires Registry(names) && t in names && t' in names
    ensures TagId(names, t) == TagId(names, t') <==> t == t'
  {
  }

  /** A tag that has been used keeps its number from then on. */
  predicate Settled(names: seq<Name>, tag: Name) { tag in names || |names| == MAX_TAGS }

  lemma RegisterSettles(names: seq<Name>, tag: Name, other: Name)
    requires Registry(names)
    ensures Registry(Register(names, tag)) && Settled(Register(names, tag), tag) && names <= Register(names, tag)
    ensures Settled(names, other) ==> Settled(Register(names, tag), other) && TagId(Register(names, tag), other) == TagId(names, other)
  {
    if Register(names, tag) != names {
      assert (names + [tag])[..|names|] == names;
    }
  }

  // ---------------------------------------------------------------- records and tables

  function Record(id: Byte, e: Event): (r: seq<Byte>)
    ensures |r| == RECORD
  {
    [id] + Lanes(8, e.cycle) + Lanes(8, e.pc) + Lanes(8, e.a) + Lanes(8, e.b) + Lanes(8, e.c)
  }

  function Encode(names: seq<Name>, events: seq<Event>): (r: seq<Byte>)
    requires |names| <= MAX_TAGS
    ensures |r| == RECORD * |events|
  {
    if events == [] then []
    else
      var init, last := events[..|events| - 1], events[|events| - 1];
      Encode(names, init) + Record(TagId(names, last.tag), last)
  }

  /** Names are stored with their length in one byte, so cut to 255 bytes. */
  function Cut(name: Name): (r: Name)
    ensures |r| <= 255
  {
    if |name| > 255 then name[..255] else name
  }

  function TableEntry(name: Name): seq<Byte> { [|Cut(name)|] + Cut(name) }

  function Table(names: seq<Name>): seq<Byte> {
    if names == [] then [] else TableEntry(names[0]) + Table(names[1..])
  }

  lemma {:induction false} TableAppend(names: seq<Name>, more: seq<Name>)
    ensures Table(names + more) == Table(names) + Table(more)
  {
    if names == [] {
      assert names + more == more;
    } else {
      TableAppend(names[1..], more);
      assert (names + more)[1..] == names[1..] + more;
    }
  }

  /** How many leading names fit the table written while the trace is live. */
  function LiveCount(names: seq<Name>): (n: nat)
    ensures n <= |names|
  {
    if names == [] then 0
    else
      var init := names[..|names| - 1];
      if LiveCount(init) == |init| && |Table(names)| <= LIVE_TABLE then |names| else LiveCount(init)
  }

  function LiveTable(names: seq<Name>): seq<Byte> { Table(names[..LiveCount(names)]) }

  /** Only a table over 4096 bytes is cut short. */
  lemma {:induction false} LiveTableIsWhole(names: seq<Name>)
    ensures LiveCount(names) == |names| <==> |Table(names)| <= LIVE_TABLE
  {
    if names != [] {
      var init := names[..|names| - 1];
      LiveTableIsWhole(init);
      assert names == init + [names[|names| - 1]];
      TableAppend(init, [names[|names| - 1]]);
    }
  }

  lemma {:induction false} LiveTableSize(names: seq<Name>)
    ensures |LiveTable(names)| <= LIVE_TABLE
  {
    if names != [] {
      var init := names[..|names| - 1];
      LiveTableSize(init);
      if LiveCount(names) == |names| {
        assert names[..|names|] == names;
      } else {
        assert names[..LiveCount(names)] == init[..LiveCount(init)];
      }
    }
  }

  /** The live table only grows. */
  lemma {:induction false} LiveTableGrows(names: seq<Name>, i: nat)
    requires i <= |names|
    ensures |LiveTable(names[..i])| <= |LiveTable(names)| <= |Table(names)|
    decreases |names|
  {
    if i < |names| {
      var init := names[..|names| - 1];
      LiveTableGrows(init, i);
      assert init[..i] == names[..i] && names == init + [names[|names| - 1]];
      TableAppend(init, [names[|names| - 1]]);
      assert init[..LiveCount(init)] == names[..LiveCount(init)];
      assert names[..|names|] == names && init[..|init|] == init;
    } else {
      assert names[..i] == names;
      assert names == names[..LiveCount(names)] + names[LiveCount(names)..];
      TableAppend(names[..LiveCount(names)], names[LiveCount(names)..]);
    }
  }

  /** The first name that does not fit ends the live table. */
  lemma {:induction false} LiveTableStops(names: seq<Name>, i: nat)
    requires i < |names| && LiveCount(names[..i]) == i && |Table(names[..i + 1])| > LIVE_TABLE
    ensures LiveCount(names) == i
    decreases |names|
  {
    var init := names[..|names| - 1];
    if i < |init| {
      assert init[..i] == names[..i] && init[..i + 1] == names[..i + 1];
      LiveTableStops(init, i);
    } else {
      assert names[..i + 1] == names && names[..i] == init;
    }
  }

  // ---------------------------------------------------------------- the decoder

  /** How a tag is shown: by name if the table has it, else by number. */
  datatype Tag = Named(name: Name) | Numbered(id: Byte)

  datatype Shown = Shown(tag: Tag, cycle: nat, pc: nat, a: nat, b: nat, c: nat)

  /** Reading past the end of the file gives fewer bytes. */
  function ReadAt(file: seq<Byte>, offset: nat, n: nat): seq<Byte> {
    if offset >= |file| then [] else if offset + n > |file| then file[offset..] else file[offset..offset + n]
  }

  function ReadTags(file: seq<Byte>, offset: nat, count: nat): seq<Name>
    decreases count
  {
    if count == 0 || offset >= |file| then []
    else
      var name := ReadAt(file, offset + 1, file[offset]);
      [name] + ReadTags(file, offset + 1 + |name|, count - 1)
  }

  function Show(r: seq<Byte>, tags: seq<Name>): Shown
    requires |r| == RECORD
  {
    Shown(if r[0] as int < |tags| then Named(tags[r[0]]) else Numbered(r[0]),
          Number(r[1..9]), Number(r[9..17]), Number(r[17..25]), Number(r[25..33]), Number(r[33..41]))
  }

  function ReadEvents(file: seq<Byte>, offset: nat, count: nat, tags: seq<Name>): seq<Shown>
    decreases count
  {
    if count == 0 || offset + RECORD > |file| then []
    else [Show(file[offset..offset + RECORD], tags)] + ReadEvents(file, offset + RECORD, count - 1, tags)
  }

  function Decode(file: seq<Byte>): Option<seq<Shown>> {
    if |file| < HEADER || file[0..4] != MAGIC then None
    else
      var tags := ReadTags(file, Number(file[32..40]), Number(file[12..16]));
      Some(ReadEvents(file, Number(file[40..48]), Number(file[16..24]), tags))
  }

  // ---------------------------------------------------------------- reading back

  /** What the decoder should show for an event when the file holds the first k names. */
  function Expected(names: seq<Name>, k: nat, e: Event): Shown
    requires |names| <= MAX_TAGS && k <= |names|
  {
    var id := TagId(names, e.tag);
    Shown(if id as int < k then Named(Cut(e.tag)) else Numbered(id), e.cycle, e.pc, e.a, e.b, e.c)
  }

  function ExpectedAll(names: seq<Name>, k: nat, events: seq<Event>): (r: seq<Shown>)
    requires |names| <= MAX_TAGS && k <= |names|
    ensures |r| == |events|
  {
    seq(|events|, i requires 0 <= i < |events| => Expected(names, k, events[i]))
  }

  function CutAll(names: seq<Name>): (r: seq<Name>)
    ensures |r| == |names|
  {
    seq(|names|, i requires 0 <= i < |names| => Cut(names[i]))
  }

  /** A table at the end of the file is read back whole, however many names the header claims. */
  lemma {:induction false} TableReadsBack(file: seq<Byte>, offset: nat, names: seq<Name>, count: nat)
    requires offset <= |file| && file[offset..] == Table(names) && |names| <= count
    ensures ReadTags(file, offset, count) == CutAll(names)
    decreases |names|
  {
    hide TableEntry;
    if names != [] {
      EntryReadsBack(file, offset, names[0], Table(names[1..]));
      TableReadsBack(file, offset + 1 + |Cut(names[0])|, names[1..], count - 1);
      assert CutAll(names) == [Cut(names[0])] + CutAll(names[1..]);
    }
  }

  lemma EntryReadsBack(file: seq<Byte>, offset: nat, name: Name, rest: seq<Byte>)
    requires offset <= |file| && file[offset..] == TableEntry(name) + rest
    ensures offset < |file| && file[offset] as int == |Cut(name)|
    ensures ReadAt(file, offset + 1, file[offset]) == Cut(name)
    ensures offset + 1 + |Cut(name)| <= |file| && file[offset + 1 + |Cut(name)|..] == rest
  {
    hide Cut;
    var tail, cut := file[offset..], Cut(name);
    assert file[offset] == tail[0];
    assert tail[1..] == cut + rest;
    assert file[offset + 1..] == tail[1..];
    var body := file[offset + 1..];
    assert body[..|cut|] == cut && body[|cut|..] == rest;
    assert body[..|cut|] == file[offset + 1..offset + 1 + |cut|];
    assert body[|cut|..] == file[offset + 1 + |cut|..];
  }

  /** The fields of a record stay where they are as later ones are appended. */
  lemma RecordFields(id: Byte, a: seq<Byte>, b: seq<Byte>, c: seq<Byte>, d: seq<Byte>, e: seq<Byte>)
    requires |a| == |b| == |c| == |d| == |e| == 8
    ensures
      var r := [id] + a + b + c + d + e;
      |r| == 41 && r[0] == id && r[1..9] == a && r[9..17] == b && r[17..25] == c && r[25..33] == d && r[33..41] == e
  {
    var r1 := [id] + a;
    var r2 := r1 + b;
    var r3 := r2 + c;
    var r4 := r3 + d;
    var r := r4 + e;
    assert r1[1..9] == a;
    Appended(r1, b, 1, 9);
    Appended(r2, c, 1, 9);
    Appended(r3, d, 1, 9);
    Appended(r4, e, 1, 9);
    Appended(r2, c, 9, 17);
    Appended(r3, d, 9, 17);
    Appended(r4, e, 9, 17);
    Appended(r3, d, 17, 25);
    Appended(r4, e, 17, 25);
    Appended(r4, e, 25, 33);
    AppendedField(r1, b);
    AppendedField(r2, c);
    AppendedField(r3, d);
    AppendedField(r4, e);
  }

  lemma Appended(s: seq<Byte>, more: seq<Byte>, i: nat, j: nat)
    requires i <= j <= |s|
    ensures (s + more)[i..j] == s[i..j]
  {
  }

  lemma AppendedField(s: seq<Byte>, field: seq<Byte>)
    ensures (s + field)[|s|..|s| + |field|] == field
  {
  }

  lemma RecordReadsBack(id: Byte, e: Event, tags: seq<Name>)
    ensures Show(Record(id, e), tags)
            == Shown(if id as int < |tags| then Named(tags[id]) else Numbered(id), e.cycle, e.pc, e.a, e.b, e.c)
  {
    hide Lanes, Number;
    RecordFields(id, Lanes(8, e.cycle), Lanes(8, e.pc), Lanes(8, e.a), Lanes(8, e.b), Lanes(8, e.c));
    LittleEndianWord(e.cycle);
    LittleEndianWord(e.pc);
    LittleEndianWord(e.a);
    LittleEndianWord(e.b);
    LittleEndianWord(e.c);
  }

  lemma {:induction false} EncodePrefix(names: seq<Name>, events: seq<Event>, i: nat)
    requires |names| <= MAX_TAGS && i < |events|
    ensures Encode(names, events)[RECORD * i..RECORD * i + RECORD] == Record(TagId(names, events[i].tag), events[i])
    decreases |events|
  {
    hide Record, TagId;
    var init, last := events[..|events| - 1], events[|events| - 1];
    var before, record := Encode(names, init), Record(TagId(names, last.tag), last);
    if i < |init| {
      EncodePrefix(names, init, i);
      Appended(before, record, RECORD * i, RECORD * i + RECORD);
    } else {
      AppendedField(before, record);
    }
  }

  lemma SliceOfSlice(s: seq<Byte>, a: nat, b: nat, i: nat, j: nat)
    requires a <= b <= |s| && i <= j <= b - a
    ensures s[a..b][i..j] == s[a + i..a + j]
  {
    forall k | 0 <= k < j - i
      ensures s[a..b][i..j][k] == s[a + i..a + j][k]
    {
      assert s[a..b][i + k] == s[a + (i + k)];
    }
  }

  lemma {:induction false} EventsReadBack(file: seq<Byte>, names: seq<Name>, k: nat, events: seq<Event>, i: nat)
    requires |names| <= MAX_TAGS && k <= |names| && i <= |events|
    requires HEADER + RECORD * |events| <= |file| && file[HEADER..HEADER + RECORD * |events|] == Encode(names, events)
    ensures ReadEvents(file, HEADER + RECORD * i, |events| - i, CutAll(names[..k])) == ExpectedAll(names, k, events)[i..]
    decreases |events| - i
  {
    hide Show, Record, TagId, Encode;
    if i < |events| {
      EncodePrefix(names, events, i);
      SliceOfSlice(file, HEADER, HEADER + RECORD * |events|, RECORD * i, RECORD * i + RECORD);
      ShowsExpected(names, k, events[i]);
      EventsReadBack(file, names, k, events, i + 1);
    }
  }

  lemma ShowsExpected(names: seq<Name>, k: nat, e: Event)
    requires |names| <= MAX_TAGS && k <= |names|
    ensures Show(Record(TagId(names, e.tag), e), CutAll(names[..k])) == Expected(names, k, e)
  {
    hide Show, Record;
    RecordReadsBack(TagId(names, e.tag), e, CutAll(names[..k]));
  }

  /** What the header of a file with these events must say. */
  predicate HeaderFor(file: seq<Byte>, tags: nat, events: nat) {
    && |file| >= HEADER && file[0..4] == MAGIC && Number(file[12..16]) == tags && Number(file[16..24]) == events
    && Number(file[40..48]) == HEADER && (tags > 0 ==> Number(file[32..40]) == HEADER + RECORD * events)
  }

  /** A file holding these events, followed by the first k of these names. */
  ghost predicate Holds(file: seq<Byte>, names: seq<Name>, k: nat, events: seq<Event>)
    requires |names| <= MAX_TAGS && k <= |names|
  {
    && HeaderFor(file, |names|, |events|)
    && HEADER + RECORD * |events| <= |file|
    && file[HEADER..HEADER + RECORD * |events|] == Encode(names, events)
    && file[HEADER + RECORD * |events|..] == Table(names[..k])
  }

  /** The decoder shows exactly the events, by name where the table has the name. */
  lemma DecodesTo(file: seq<Byte>, names: seq<Name>, k: nat, events: seq<Event>)
    requires |names| <= MAX_TAGS && k <= |names| && Holds(file, names, k, events)
    ensures Decode(file) == Some(ExpectedAll(names, k, events))
  {
    hide Number, Encode, ExpectedAll, Table, ReadEvents, ReadTags;
    if names != [] {
      TableReadsBack(file, HEADER + RECORD * |events|, names[..k], |names|);
    } else {
      NoTags(file, Number(file[32..40]), names[..k]);
    }
    EventsReadBack(file, names, k, events, 0);
    assert ExpectedAll(names, k, events)[0..] == ExpectedAll(names, k, events);
  }

  lemma NoTags(file: seq<Byte>, offset: nat, names: seq<Name>)
    requires names == []
    ensures ReadTags(file, offset, 0) == CutAll(names)
  {
  }

  // ---------------------------------------------------------------- byte by byte

  /** A record: the tag's number, then five words of eight bytes, least significant first. */
  lemma RecordInBytes(id: Byte, e: Event, k: nat)
    requires k < 8
    ensures
      var r := Record(id, e);
      && |r| == 41 && r[0] == id && r[1 + k] == e.cycle / Pow2(8 * k) % 0x100 && r[9 + k] == e.pc / Pow2(8 * k) % 0x100
      && r[17 + k] == e.a / Pow2(8 * k) % 0x100 && r[25 + k] == e.b / Pow2(8 * k) % 0x100 && r[33 + k] == e.c / Pow2(8 * k) % 0x100
  {
    hide Lanes, Pow2;
    RecordFields(id, Lanes(8, e.cycle), Lanes(8, e.pc), Lanes(8, e.a), Lanes(8, e.b), Lanes(8, e.c));
    var r := Record(id, e);
    LaneAt(8, e.cycle, k);
    LaneAt(8, e.pc, k);
    LaneAt(8, e.a, k);
    LaneAt(8, e.b, k);
    LaneAt(8, e.c, k);
    assert r[1 + k] == r[1..9][k] && r[9 + k] == r[9..17][k] && r[17 + k] == r[17..25][k];
    assert r[25 + k] == r[25..33][k] && r[33 + k] == r[33..41][k];
  }

  /** A name in the table: its length in one byte, then its bytes, the first 255 of a longer one. */
  lemma TableInBytes(name: Name, more: seq<Name>)
    ensures
      var t, n := Table([name] + more), if |name| > 255 then 255 else |name|;
      |t| >= 1 + n && t[0] as int == n && t[1..1 + n] == name[..n] && t[1 + n..] == Table(more)
  {
    var n := |Cut(name)|;
    assert ([name] + more)[1..] == more;
    var t := Table([name] + more);
    assert t == [|Cut(name)|] + Cut(name) + Table(more);
  }

  /** Where everything stands in a file: the events from byte 64 on, 41 bytes each, and the names behind them. */
  lemma FileInBytes(file: seq<Byte>, names: seq<Name>, k: nat, events: seq<Event>, i: nat)
    requires |names| <= 255 && k <= |names| && Holds(file, names, k, events) && i < |events|
    ensures 64 + 41 * |events| <= |file| && file[64 + 41 * |events|..] == Table(names[..k])
    ensures file[64 + 41 * i..64 + 41 * i + 41] == Record(TagId(names, events[i].tag), events[i])
  {
    hide Encode, Record, TagId, Table;
    EncodePrefix(names, events, i);
    SliceOfSlice(file, HEADER, HEADER + RECORD * |events|, RECORD * i, RECORD * i + RECORD);
  }

  /** Numbers given to settled tags do not change as names are added. */
  lemma {:induction false} EncodeSettled(names: seq<Name>, tag: Name, events: seq<Event>)
    requires Registry(names) && forall e :: e in events ==> Settled(names, e.tag)
    ensures |Register(names, tag)| <= MAX_TAGS && Encode(Register(names, tag), events) == Encode(names, events)
    decreases |events|
  {
    hide TagId, Record;
    RegisterSettles(names, tag, tag);
    if events != [] {
      EncodeSettled(names, tag, events[..|events| - 1]);
      RegisterSettles(names, tag, events[|events| - 1].tag);
    }
  }

  lemma {:induction false} EncodeAppend(names: seq<Name>, events: seq<Event>, more: seq<Event>)
    requires |names| <= MAX_TAGS
    ensures Encode(names, events + more) == Encode(names, events) + Encode(names, more)
    decreases |more|
  {
    hide TagId, Record;
    if more == [] {
      assert events + more == events;
    } else {
      var init := more[..|more| - 1];
      EncodeAppend(names, events, init);
      var all := events + more;
      assert all[..|all| - 1] == events + init && all[|all| - 1] == more[|more| - 1];
      var last := Record(TagId(names, more[|more| - 1].tag), more[|more| - 1]);
      assert (Encode(names, events) + Encode(names, init)) + last == Encode(names, events) + (Encode(names, init) + last);
    }
  }

  /** A registered tag is shown by name once the table holds every name, and a live table does exactly
      when it needs no more than 4096 bytes; a tag beyond the 255th is shown as number 255. */
  lemma ShownByName(names: seq<Name>, k: nat, e: Event)
    requires Registry(names) && k <= |names| && Settled(names, e.tag)
    ensures k == |names| ==> Expected(names, k, e).tag == if e.tag in names then Named(Cut(e.tag)) else Numbered(255)
    ensures k == LiveCount(names) ==> (k == |names| <==> |Table(names)| <= 4096)
  {
    LiveTableIsWhole(names);
  }
}
