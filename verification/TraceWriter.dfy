/** The trace writer (host/emulator/trace_writer.cpp): events collect in a buffer, each flush writes them
    over the tag table that ended the file and puts a new table and header behind and before them. */
module TraceWriter {
  import opened Words
  import opened Buffers
  import opened TraceFile

  const BUFFER_SIZE := 65536

  /** A string literal's address; what it points to never changes. */
  type Pointer = nat

  datatype TagEntry = TagEntry(ptr: Pointer, name: Name)

  function NamesOf(tags: seq<TagEntry>): (names: seq<Name>)
    ensures |names| == |tags| && forall i :: 0 <= i < |tags| ==> names[i] == tags[i].name
  {
    seq(|tags|, i requires 0 <= i < |tags| => tags[i].name)
  }

  /** The tag table and the one-entry cache in front of it. */
  class TagTable {
    const text: Pointer -> Name
    var tags: seq<TagEntry>
    var lastTag: Option<Pointer>
    var lastId: Byte

    ghost predicate Valid()
      reads this
    {
      && Registry(NamesOf(tags))
      && (forall i :: 0 <= i < |tags| ==> tags[i].name == text(tags[i].ptr))
      && (lastTag.Some? ==> Settled(NamesOf(tags), text(lastTag.value)) && lastId == TagId(NamesOf(tags), text(lastTag.value)))
    }

    constructor (text: Pointer -> Name)
      ensures Valid() && tags == [] && this.text == text
    {
      this.text, tags, lastTag, lastId := text, [], None, 0;
    }

    /** Finds a tag's number by pointer, then by name, then by registering it. */
    method ResolveTagId(tag: Pointer) returns (id: Byte)
      requires Valid()
      modifies this
      ensures Valid() && NamesOf(tags) == Register(old(NamesOf(tags)), text(tag))
      ensures id == TagId(NamesOf(tags), text(tag))
    {
      hide TagId;
      if lastTag == Some(tag) {
        NamedOnce(NamesOf(tags), text(tag));
        return lastId;
      }
      var i := 0;
      while i < |tags|
        invariant 0 <= i <= |tags|
      {
        if tags[i].ptr == tag {
          TagAt(NamesOf(tags), i);
          lastTag, lastId := Some(tag), i;
          return i;
        }
        i := i + 1;
      }
      i := 0;
      while i < |tags|
        invariant 0 <= i <= |tags| && forall k :: 0 <= k < i ==> tags[k].name != text(tag)
      {
        if tags[i].name == text(tag) {
          TagAt(NamesOf(tags), i);
          ghost var names := NamesOf(tags);
          tags := tags[i := TagEntry(tag, tags[i].name)];
          assert NamesOf(tags) == names;
          lastTag, lastId := Some(tag), i;
          return i;
        }
        i := i + 1;
      }
      assert text(tag) !in NamesOf(tags);
      ghost var names := NamesOf(tags);
      RegisterSettles(names, text(tag), text(tag));
      if |tags| >= MAX_TAGS {
        NamedOnce(names, text(tag));
        lastTag, lastId := Some(tag), 255;
        return 255;
      }
      id := |tags|;
      tags := tags + [TagEntry(tag, text(tag))];
      assert NamesOf(tags) == names + [text(tag)];
      TagAt(NamesOf(tags), id as int);
      lastTag, lastId := Some(tag), id;
    }
  }

  lemma TagAt(names: seq<Name>, i: nat)
    requires Registry(names) && i < |names|
    ensures names[i] in names && TagId(names, names[i]) == i
  {
  }

  lemma NamedOnce(names: seq<Name>, tag: Name)
    requires Registry(names) && Settled(names, tag)
    ensures Register(names, tag) == names && (tag !in names ==> TagId(names, tag) == 255)
  {
  }

  // ---------------------------------------------------------------- pieces of the file

  method BuildHeader(tagCount: nat, events: nat, total: nat, tableOffset: nat) returns (h: seq<Byte>)
    requires tagCount < 0x1_0000_0000 && events <= WORD_MAX && total <= WORD_MAX && tableOffset <= WORD_MAX
    ensures |h| == HEADER && HeaderFields(h, tagCount, events, total, tableOffset)
  {
    hide Lanes, Number, HeaderFields;
    var b := new Buffer(HEADER);
    ghost var blank := Part(b.bytes[..], 48, 64);
    b.PutField(0, MAGIC);
    b.PutField(4, Lanes(4, 1));
    b.PutField(8, Lanes(4, 0));
    b.PutField(12, Lanes(4, tagCount));
    b.PutField(16, Lanes(8, events));
    b.PutField(24, Lanes(8, total));
    b.PutField(32, Lanes(8, tableOffset));
    b.PutField(40, Lanes(8, HEADER));
    h := b.bytes[..];
    HeaderMade(h, tagCount, events, total, tableOffset, blank);
  }

  lemma HeaderMade(h: seq<Byte>, tags: nat, events: nat, total: nat, tableOffset: nat, blank: seq<Byte>)
    requires |h| == 64 && tags < 0x1_0000_0000 && events <= WORD_MAX && total <= WORD_MAX && tableOffset <= WORD_MAX
    requires Part(h, 0, 4) == MAGIC && Part(h, 4, 8) == Lanes(4, 1) && Part(h, 8, 12) == Lanes(4, 0) && Part(h, 12, 16) == Lanes(4, tags)
    requires Part(h, 16, 24) == Lanes(8, events) && Part(h, 24, 32) == Lanes(8, total) && Part(h, 32, 40) == Lanes(8, tableOffset)
    requires Part(h, 40, 48) == Lanes(8, HEADER) && Part(h, 48, 64) == blank && forall k :: 0 <= k < 16 ==> blank[k] == 0
    ensures HeaderFields(h, tags, events, total, tableOffset)
  {
    hide Lanes, Number;
    LittleEndian(4, 1);
    LittleEndian(4, 0);
    LittleEndian(4, tags);
    LittleEndianWord(events);
    LittleEndianWord(total);
    LittleEndianWord(tableOffset);
    LittleEndianWord(HEADER);
    forall k | 48 <= k < 64
      ensures h[k] == 0
    {
      assert h[k] == blank[k - 48];
    }
  }

  /** The table for a live file: names while they fit 4096 bytes. */
  method BuildLiveTable(names: seq<Name>) returns (table: seq<Byte>)
    ensures table == LiveTable(names)
  {
    hide TableEntry;
    table := [];
    var i := 0;
    while i < |names|
      invariant 0 <= i <= |names| && table == Table(names[..i]) && |table| <= LIVE_TABLE && LiveCount(names[..i]) == i
    {
      var entry := TableEntry(names[i]);
      assert names[..i + 1] == names[..i] + [names[i]];
      TableAppend(names[..i], [names[i]]);
      assert Table([names[i]]) == entry;
      if |table| + |entry| > LIVE_TABLE {
        LiveTableStops(names, i);
        return;
      }
      table := table + entry;
      assert names[..i + 1][..i] == names[..i];
      i := i + 1;
    }
    assert names[..|names|] == names;
  }

  method BuildTable(names: seq<Name>) returns (table: seq<Byte>)
    ensures table == Table(names)
  {
    hide TableEntry;
    table := [];
    for i := 0 to |names|
      invariant table == Table(names[..i])
    {
      assert names[..i + 1] == names[..i] + [names[i]];
      TableAppend(names[..i], [names[i]]);
      assert Table([names[i]]) == TableEntry(names[i]);
      table := table + TableEntry(names[i]);
    }
    assert names[..|names|] == names;
  }

  /** A write to a file at a position inside it. */
  function Overwrite(file: seq<Byte>, at: nat, data: seq<Byte>): (r: seq<Byte>)
    requires at <= |file|
  {
    file[..at] + data + if at + |data| < |file| then file[at + |data|..] else []
  }

  /** New events over the old table, a new table behind them, a new header in front. */
  lemma Rewritten(file: seq<Byte>, at: nat, data: seq<Byte>, table: seq<Byte>, header: seq<Byte>)
    requires HEADER <= at <= |file| <= at + |data| + |table| && |header| == HEADER
    ensures
      var r := Overwrite(Overwrite(Overwrite(file, at, data), at + |data|, table), 0, header);
      && |r| == at + |data| + |table| && r[..HEADER] == header
      && r[HEADER..at + |data|] == file[HEADER..at] + data && r[at + |data|..] == table
  {
    var one := Overwrite(file, at, data);
    var two := Overwrite(one, at + |data|, table);
    assert two == file[..at] + data + table;
    var r := Overwrite(two, 0, header);
    var body := file[HEADER..at] + data;
    assert r == header + body + table;
    assert r[HEADER..at + |data|] == body && r[at + |data|..] == table;
  }

  // ---------------------------------------------------------------- the writer

  /** A file this small: offsets and counters stay in 64 bits. */
  const FILE_LIMIT := 0x7FFF_FFFF_0000_0000

  class Writer {
    const tagTable: TagTable
    const buffer: array<Byte>
    const maxBytes: nat
    const startCycle: Word
    const endCycle: Word
    var file: seq<Byte>
    var position: nat
    var isOpen: bool
    var bufferPos: nat
    var eventsWritten: nat
    var eventsDropped: nat
    var bytesWritten: nat
    var capReached: bool
    ghost var flushed: seq<Event>
    ghost var buffered: seq<Event>
    ghost var diskNames: seq<Name>

    ghost function Names(): (names: seq<Name>)
      reads tagTable
    {
      NamesOf(tagTable.tags)
    }

    /** While open: the file holds the flushed events and the names known at the last flush, the buffer
        the events since, and the events take no more room than the cap and one record allow. */
    ghost predicate Consistent()
      reads this, buffer, tagTable
    {
      && isOpen && tagTable.Valid() && buffer.Length == BUFFER_SIZE
      && bufferPos == RECORD * |buffered| <= BUFFER_SIZE
      && position == bytesWritten == HEADER + RECORD * |flushed|
      && eventsWritten == |flushed| + |buffered| && eventsDropped == (if capReached then 1 else 0)
      && buffer[..bufferPos] == Encode(Names(), buffered)
      && Registry(diskNames) && Registry(Names()) && diskNames <= Names()
      && (forall e :: e in flushed ==> Settled(diskNames, e.tag))
      && (forall e :: e in buffered ==> Settled(Names(), e.tag))
      && Holds(file, diskNames, LiveCount(diskNames), flushed)
      && (maxBytes > 0 ==> bytesWritten + bufferPos <= HEADER || bytesWritten + bufferPos < maxBytes + RECORD)
    }

    /** Between calls every name belongs to an event. */
    ghost predicate Valid()
      reads this, buffer, tagTable
    {
      Consistent() && (buffered == [] ==> diskNames == Names())
    }

    /** Opening truncates the file and writes a header for no events. */
    constructor (text: Pointer -> Name, maxBytes: nat, startCycle: Word, endCycle: Word)
      ensures Valid() && fresh(buffer) && fresh(tagTable) && tagTable.text == text
      ensures this.maxBytes == maxBytes && this.startCycle == startCycle && this.endCycle == endCycle
      ensures flushed == [] && buffered == [] && !capReached
    {
      tagTable := new TagTable(text);
      buffer := new Byte[BUFFER_SIZE](_ => 0);
      this.maxBytes, this.startCycle, this.endCycle := maxBytes, startCycle, endCycle;
      isOpen, bufferPos, eventsWritten, eventsDropped, capReached := true, 0, 0, 0, false;
      flushed, buffered, diskNames := [], [], [];
      var header := BuildHeader(0, 0, 0, 0);
      file, position, bytesWritten := header, HEADER, HEADER;
      new;
      assert LiveCount([]) == 0 && Table([]) == [];
    }

    method WriteFile(data: seq<Byte>)
      requires position <= |file|
      modifies this`file, this`position
      ensures file == Overwrite(old(file), old(position), data) && position == old(position) + |data|
    {
      file := file[..position] + data + if position + |data| < |file| then file[position + |data|..] else [];
      position := position + |data|;
    }

    /** Writes the buffered events over the old table, then the new table and header. */
    method FlushBuffer()
      requires Consistent() && bytesWritten + bufferPos <= FILE_LIMIT
      modifies this`file, this`position, this`bufferPos, this`bytesWritten, this`flushed, this`buffered, this`diskNames
      ensures Consistent() && flushed == old(flushed) + old(buffered) && buffered == []
      ensures diskNames == if old(buffered) == [] then old(diskNames) else Names()
      ensures bytesWritten == old(bytesWritten) + old(bufferPos)
      ensures old(buffered) != [] ==> HeaderFields(file, |Names()|, eventsWritten, eventsWritten + eventsDropped, bytesWritten)
    {
      hide Encode, Table, LiveCount, LiveTable, Number, Settled, TagId, Overwrite, HeaderFields, Holds, Registry, TagTable.Valid;
      if bufferPos == 0 {
        assert flushed + buffered == flushed;
        return;
      }
      FlushSome();
    }

    method FlushSome()
      requires Consistent() && bytesWritten + bufferPos <= FILE_LIMIT && bufferPos > 0
      modifies this`file, this`position, this`bufferPos, this`bytesWritten, this`flushed, this`buffered, this`diskNames
      ensures Consistent() && flushed == old(flushed) + old(buffered) && buffered == [] && diskNames == Names()
      ensures bytesWritten == old(bytesWritten) + old(bufferPos)
      ensures HeaderFields(file, |Names()|, eventsWritten, eventsWritten + eventsDropped, bytesWritten)
    {
      hide Encode, Table, LiveCount, LiveTable, Number, Settled, TagId, Overwrite, HeaderFields, Holds, Registry, TagTable.Valid, NamesOf;
      FewNames(Names());
      ghost var before, at, data, names := file, position, buffer[..bufferPos], Names();
      OldTableFits(before, diskNames, names, flushed);
      OverwriteLength(before, at, data);
      WriteFile(buffer[..bufferPos]);
      bytesWritten := bytesWritten + bufferPos;
      bufferPos := 0;
      assert |tagTable.tags| != 0 by {
        SomeName(Names(), buffered);
      }
      assert bytesWritten - |data| == at;
      assert file == Overwrite(before, at, data) && Names() == names;
      var table := WriteLiveTagTable(before, data);
      FlushHolds(before, diskNames, names, flushed, buffered, data, table, file, eventsWritten + eventsDropped);
      flushed, buffered, diskNames := flushed + buffered, [], names;
      assert buffer[..bufferPos] == [];
    }

    /** The table goes where the file now stands; the header is rewritten; the position returns to the
        end of the events. */
    method WriteLiveTagTable(ghost before: seq<Byte>, ghost data: seq<Byte>) returns (table: seq<Byte>)
      requires HEADER + |data| <= position == bytesWritten <= |file| && bytesWritten <= FILE_LIMIT
      requires |before| >= position - |data|
      requires file == Overwrite(before, position - |data|, data)
      requires |before| <= position + |LiveTable(Names())|
      requires |Names()| <= MAX_TAGS && eventsWritten <= FILE_LIMIT && eventsDropped <= 1
      modifies this`file, this`position
      ensures table == LiveTable(Names()) && position == bytesWritten
      ensures |file| == bytesWritten + |table|
      ensures HeaderFields(file, |Names()|, eventsWritten, eventsWritten + eventsDropped, bytesWritten)
      ensures file[HEADER..bytesWritten] == before[HEADER..bytesWritten - |data|] + data && file[bytesWritten..] == table
    {
      hide Overwrite, Number, LiveTable, LiveCount;
      table := BuildLiveTable(NamesOf(tagTable.tags));
      assert position <= |file|;
      OverwriteLength(before, position - |data|, data);
      WriteFile(table);
      OverwriteLength(Overwrite(before, bytesWritten - |data|, data), bytesWritten, table);
      position := 0;
      var header := BuildHeader(|tagTable.tags|, eventsWritten, eventsWritten + eventsDropped, bytesWritten);
      WriteFile(header);
      Rewritten(before, bytesWritten - |data|, data, table, header);
      SameHeader(header, file, |Names()|, eventsWritten, eventsWritten + eventsDropped, bytesWritten);
      position := bytesWritten;
    }

    /** After a flush the decoder shows every event so far, by name as far as the live table reaches, and the
        header counts them, and a drop at the cap, and says where the table is. */
    method Flush()
      requires Valid() && bytesWritten + bufferPos <= FILE_LIMIT
      modifies this
      ensures Valid() && flushed == old(flushed) + old(buffered) && buffered == []
      ensures Decode(file) == Some(ExpectedAll(Names(), LiveCount(Names()), old(flushed) + old(buffered)))
      ensures old(buffered) != [] ==> HeaderFields(file, |Names()|, |flushed|, |flushed| + (if capReached then 1 else 0), 64 + 41 * |flushed|)
    {
      hide LiveCount, Settled, Registry, TagId, Encode, Holds, Decode, ExpectedAll, HeaderFields;
      FewNames(Names());
      FlushBuffer();
      DecodesTo(file, diskNames, LiveCount(diskNames), flushed);
    }

    /** After closing the decoder shows every event by name, whatever the size of the table. */
    method Close()
      requires Valid() && bytesWritten + bufferPos <= FILE_LIMIT
      modifies this
      ensures !isOpen && Names() == old(Names())
      ensures Decode(file) == Some(ExpectedAll(Names(), |Names()|, old(flushed) + old(buffered)))
      ensures
        var n := |old(flushed)| + |old(buffered)|;
        HeaderFields(file, |Names()|, n, n + (if capReached then 1 else 0), 64 + 41 * n)
    {
      hide LiveCount, LiveTable, Settled, Registry, TagId, Encode, Table, Decode, ExpectedAll, Overwrite, HeaderFields, Holds, Number, TagTable.Valid, NamesOf;
      FewNames(Names());
      FlushBuffer();
      ghost var before, names := file, Names();
      OldTableFits(before, diskNames, names, flushed);
      LiveTableGrows(names, |names|);
      position := bytesWritten;
      var table := BuildTable(NamesOf(tagTable.tags));
      WriteFile(table);
      position := 0;
      OverwriteNothing(before, bytesWritten);
      OverwriteLength(before, bytesWritten, table);
      var header := BuildHeader(|tagTable.tags|, eventsWritten, eventsWritten + eventsDropped, bytesWritten);
      WriteFile(header);
      Rewritten(before, bytesWritten, [], table, header);
      SameHeader(header, file, |names|, eventsWritten, eventsWritten + eventsDropped, bytesWritten);
      CloseHolds(before, names, flushed, file, eventsWritten + eventsDropped);
      DecodesTo(file, names, |names|, flushed);
      isOpen := false;
    }

    /** Between two calls the file on disk decodes to the events flushed so far. */
    lemma LiveFileDecodes()
      requires Consistent()
      ensures |diskNames| <= MAX_TAGS && Decode(file) == Some(ExpectedAll(diskNames, LiveCount(diskNames), flushed))
    {
      hide LiveCount, Settled, TagId, Encode, Holds, Decode, ExpectedAll, TagTable.Valid;
      DecodesTo(file, diskNames, LiveCount(diskNames), flushed);
    }

    /** Whether an event now would be kept: inside the window, and below the size cap. */
    predicate Keeps(cycle: Word)
      reads this
    {
      startCycle <= cycle <= endCycle && !capReached && !(maxBytes > 0 && bytesWritten + bufferPos >= maxBytes)
    }

    /** Records an event, or drops it outside the window or beyond the cap; the buffer is flushed before an event
        that does not fit its 65536 bytes. */
    method WriteEvent(tag: Pointer, cycle: Word, pc: Word, a: Word, b: Word, c: Word)
      requires Valid() && bytesWritten + bufferPos + RECORD <= FILE_LIMIT
      modifies this, buffer, tagTable
      ensures Valid()
      ensures flushed + buffered == old(flushed + buffered)
              + if old(Keeps(cycle)) then [Event(tagTable.text(tag), cycle, pc, a, b, c)] else []
      ensures flushed == if old(Keeps(cycle)) && old(bufferPos) + 41 > 65536 then old(flushed + buffered) else old(flushed)
    {
      hide Encode, LiveCount, Settled, Registry, TagId, Holds, Record, HeaderFields, TagTable.Valid;
      if cycle < startCycle || cycle > endCycle || capReached {
        return;
      }
      if maxBytes > 0 && bytesWritten + bufferPos >= maxBytes {
        capReached := true;
        eventsDropped := eventsDropped + 1;
        return;
      }
      ghost var names := Names();
      var id := tagTable.ResolveTagId(tag);
      NameAdded(names, tagTable.text(tag), diskNames, buffered);
      FewNames(Names());
      if bufferPos + RECORD > BUFFER_SIZE {
        FlushBuffer();
      }
      AppendEvent(id, Event(tagTable.text(tag), cycle, pc, a, b, c));
    }

    method AppendEvent(id: Byte, e: Event)
      requires Consistent() && bufferPos + RECORD <= BUFFER_SIZE
      requires |Names()| <= MAX_TAGS && id == TagId(Names(), e.tag) && Settled(Names(), e.tag)
      requires maxBytes > 0 ==> bytesWritten + bufferPos < maxBytes
      modifies this`bufferPos, this`eventsWritten, this`buffered, buffer
      ensures Consistent() && buffered == old(buffered) + [e]
    {
      hide Encode, LiveCount, Settled, Registry, TagId, Holds, Record, TagTable.Valid;
      PutRecord(id, e.cycle, e.pc, e.a, e.b, e.c);
      RecordIgnoresTag(id, e);
      EncodeNext(Names(), buffered, e);
      buffered := buffered + [e];
      eventsWritten := eventsWritten + 1;
    }

    method PutRecord(id: Byte, cycle: Word, pc: Word, a: Word, b: Word, c: Word)
      requires buffer.Length == BUFFER_SIZE && bufferPos + RECORD <= BUFFER_SIZE
      modifies this`bufferPos, buffer
      ensures bufferPos == old(bufferPos) + RECORD
      ensures buffer[..bufferPos] == old(buffer[..bufferPos]) + Record(id, Event([], cycle, pc, a, b, c))
    {
      hide Lanes;
      PutByte(bufferPos, [id]);
      PutByte(bufferPos + 1, Lanes(8, cycle));
      PutByte(bufferPos + 9, Lanes(8, pc));
      PutByte(bufferPos + 17, Lanes(8, a));
      PutByte(bufferPos + 25, Lanes(8, b));
      PutByte(bufferPos + 33, Lanes(8, c));
      bufferPos := bufferPos + RECORD;
    }

    method PutByte(at: nat, data: seq<Byte>)
      requires at + |data| <= buffer.Length
      modifies buffer
      ensures buffer[..at + |data|] == old(buffer[..at]) + data
    {
      forall k | 0 <= k < |data| {
        buffer[at + k] := data[k];
      }
    }
  }

  lemma RecordIgnoresTag(id: Byte, e: Event)
    ensures Record(id, e) == Record(id, Event([], e.cycle, e.pc, e.a, e.b, e.c))
  {
  }

  lemma OverwriteNothing(file: seq<Byte>, at: nat)
    requires at <= |file|
    ensures Overwrite(file, at, []) == file
  {
  }

  lemma CloseHolds(before: seq<Byte>, names: seq<Name>, events: seq<Event>, file: seq<Byte>, total: nat)
    requires |names| <= MAX_TAGS && Holds(before, names, LiveCount(names), events)
    requires
      var at := HEADER + RECORD * |events|;
      && at <= |file| && HeaderFields(file, |names|, |events|, total, at)
      && file[HEADER..at] == before[HEADER..at] && file[at..] == Table(names)
    ensures Holds(file, names, |names|, events)
  {
    hide Encode, Table, Number, LiveCount;
    assert names[..|names|] == names;
  }

  /** Resolving a tag leaves the records already made readable. */
  lemma NameAdded(names: seq<Name>, tag: Name, disk: seq<Name>, events: seq<Event>)
    requires Registry(names) && disk <= names && forall e :: e in events ==> Settled(names, e.tag)
    ensures
      var more := Register(names, tag);
      && Registry(more) && disk <= more && Settled(more, tag) && Encode(more, events) == Encode(names, events)
      && forall e :: e in events ==> Settled(more, e.tag)
  {
    hide Encode, TagId;
    EncodeSettled(names, tag, events);
    RegisterSettles(names, tag, tag);
    forall e | e in events
      ensures Settled(Register(names, tag), e.tag)
    {
      RegisterSettles(names, tag, e.tag);
    }
  }

  lemma EncodeNext(names: seq<Name>, events: seq<Event>, e: Event)
    requires |names| <= MAX_TAGS
    ensures Encode(names, events + [e]) == Encode(names, events) + Record(TagId(names, e.tag), e)
  {
    hide Record, TagId;
    assert (events + [e])[..|events + [e]| - 1] == events;
  }

  lemma OldTableFits(file: seq<Byte>, disk: seq<Name>, names: seq<Name>, events: seq<Event>)
    requires |disk| <= MAX_TAGS && disk <= names && Holds(file, disk, LiveCount(disk), events)
    ensures
      var at := HEADER + RECORD * |events|;
      at <= |file| <= at + |LiveTable(names)|
  {
    LiveTableGrows(names, |disk|);
    assert names[..|disk|] == disk;
  }

  lemma OverwriteLength(file: seq<Byte>, at: nat, data: seq<Byte>)
    requires at <= |file|
    ensures |Overwrite(file, at, data)| == if at + |data| < |file| then |file| else at + |data|
  {
  }

  /** The 64 bytes in front of a file: "L64T", version 1, the counts and the places of table and events. */
  predicate HeaderFields(file: seq<Byte>, tags: nat, events: nat, total: nat, tableOffset: nat) {
    && |file| >= 64 && file[0..4] == [0x4C, 0x36, 0x34, 0x54] && Number(file[4..8]) == 1 && Number(file[8..12]) == 0
    && Number(file[12..16]) == tags && Number(file[16..24]) == events && Number(file[24..32]) == total
    && Number(file[32..40]) == tableOffset && Number(file[40..48]) == 64
    && forall k :: 48 <= k < 64 ==> file[k] == 0
  }

  lemma SameHeader(header: seq<Byte>, file: seq<Byte>, tags: nat, events: nat, total: nat, tableOffset: nat)
    requires |header| == HEADER <= |file| && file[..HEADER] == header && HeaderFields(header, tags, events, total, tableOffset)
    ensures HeaderFields(file, tags, events, total, tableOffset)
  {
    hide Number;
    assert file[0..4] == header[0..4] && file[12..16] == header[12..16] && file[16..24] == header[16..24];
    assert file[32..40] == header[32..40] && file[40..48] == header[40..48];
    assert file[4..8] == header[4..8] && file[8..12] == header[8..12] && file[24..32] == header[24..32];
    assert forall k :: 48 <= k < 64 ==> file[k] == header[k];
  }

  lemma FewNames(names: seq<Name>)
    requires Registry(names)
    ensures |names| <= MAX_TAGS
  {
  }

  lemma SomeName(names: seq<Name>, events: seq<Event>)
    requires events != [] && forall e :: e in events ==> Settled(names, e.tag)
    ensures names != []
  {
    assert events[0] in events;
  }

  /** A flushed file holds the old events and the new ones under the new names. */
  lemma {:induction false} FlushHolds(before: seq<Byte>, disk: seq<Name>, names: seq<Name>, events: seq<Event>, more: seq<Event>,
                   data: seq<Byte>, table: seq<Byte>, file: seq<Byte>, total: nat)
    requires Registry(disk) && Registry(names) && disk <= names && forall e :: e in events ==> Settled(disk, e.tag)
    requires Holds(before, disk, LiveCount(disk), events) && data == Encode(names, more) && table == LiveTable(names)
    requires forall e :: e in more ==> Settled(names, e.tag)
    requires
      var at := HEADER + RECORD * |events|;
      && |file| == at + |data| + |table| && HeaderFields(file, |names|, |events| + |more|, total, at + |data|)
      && file[HEADER..at + |data|] == before[HEADER..at] + data && file[at + |data|..] == table
    ensures Holds(file, names, LiveCount(names), events + more)
    ensures forall e :: e in events + more ==> Settled(names, e.tag)
    ensures Encode(names, []) == []
  {
    hide Encode, Table, Number, TagId;
    EncodeUnderMore(disk, names, events);
    EncodeAppend(names, events, more);
  }

  lemma {:induction false} EncodeUnderMore(disk: seq<Name>, names: seq<Name>, events: seq<Event>)
    requires Registry(disk) && Registry(names) && disk <= names && forall e :: e in events ==> Settled(disk, e.tag)
    ensures Encode(names, events) == Encode(disk, events)
    ensures forall e :: e in events ==> Settled(names, e.tag)
    decreases |names|
  {
    if disk != names {
      var init := names[..|names| - 1];
      EncodeUnderMore(disk, init, events);
      assert Register(init, names[|names| - 1]) == names;
      EncodeSettled(init, names[|names| - 1], events);
    }
  }
}
