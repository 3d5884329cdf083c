/** VFAT long-name directory entries (hdl/little64_cores/litex_linux_boot.py), read back as section 7
    of the Microsoft FAT Specification describes. */
module LongNames {
  import opened Words

  type DirectoryEntry = e: seq<Byte> | |e| == 32 witness seq(32, _ => 0)

  const UNITS_PER_ENTRY := 13
  const LAST_ENTRY := 0x40
  const LONG_NAME_ATTRIBUTE: Byte := 0x0F

  /** Where unit j of an entry is stored. */
  function Position(j: nat): (p: nat)
    requires j < UNITS_PER_ENTRY
    ensures p <= 30
  {
    if j < 5 then 1 + 2 * j else if j < 11 then 14 + 2 * (j - 5) else 28 + 2 * (j - 11)
  }

  function Unit(e: DirectoryEntry, j: nat): Half
    requires j < UNITS_PER_ENTRY
  {
    e[Position(j)] as int + 0x100 * e[Position(j) + 1] as int
  }

  function Units(e: DirectoryEntry): (u: seq<Half>)
    ensures |u| == UNITS_PER_ENTRY
  {
    seq(UNITS_PER_ENTRY, j requires 0 <= j < UNITS_PER_ENTRY => Unit(e, j))
  }

  /** The checksum of the short name that ties its long entries to it: rotate right, add. */
  function Checksum(shortName: seq<Byte>): Byte {
    if shortName == [] then 0
    else
      var before := Checksum(shortName[..|shortName| - 1]);
      (before % 2 * 0x80 + before / 2 + shortName[|shortName| - 1]) % 0x100
  }

  method ShortNameChecksum(shortName: seq<Byte>) returns (checksum: Byte)
    ensures checksum == Checksum(shortName)
  {
    checksum := 0;
    for k := 0 to |shortName|
      invariant checksum == Checksum(shortName[..k])
    {
      assert shortName[..k + 1][..k] == shortName[..k];
      checksum := (checksum % 2 * 0x80 + checksum / 2 + shortName[k]) % 0x100;
    }
    assert shortName[..|shortName|] == shortName;
  }

  // ---------------------------------------------------------------- the reader

  /** Entry k of n belongs to the long name of a short entry with this checksum. */
  predicate InSequence(e: DirectoryEntry, k: nat, n: nat, checksum: Byte) {
    && e[0] as int == n - k + (if k == 0 then LAST_ENTRY else 0)
    && e[11] == LONG_NAME_ATTRIBUTE && e[12] == 0 && e[13] == checksum
  }

  /** Entries are stored last part first. */
  function Assemble(entries: seq<DirectoryEntry>): seq<Half> {
    if entries == [] then [] else Assemble(entries[1..]) + Units(entries[0])
  }

  function UpToNul(units: seq<Half>): seq<Half> {
    if units == [] || units[0] == 0 then [] else [units[0]] + UpToNul(units[1..])
  }

  /** The long name in front of a short entry, or none if the entries do not form one: sequence
      numbers have six bits, next to the bit that marks the last part. */
  function Decode(entries: seq<DirectoryEntry>, shortName: seq<Byte>): Option<seq<Half>> {
    if 0 < |entries| < LAST_ENTRY && forall k :: 0 <= k < |entries| ==> InSequence(entries[k], k, |entries|, Checksum(shortName))
    then Some(UpToNul(Assemble(entries)))
    else None
  }

  // ---------------------------------------------------------------- the builder

  /** The name, a NUL, and 0xFFFF up to a whole number of entries. */
  function Padded(name: seq<Half>): (u: seq<Half>)
    ensures |u| % UNITS_PER_ENTRY == 0 && |name| < |u| <= |name| + UNITS_PER_ENTRY
  {
    var fill := (UNITS_PER_ENTRY - (|name| + 1) % UNITS_PER_ENTRY) % UNITS_PER_ENTRY;
    name + [0] + seq(fill, _ => 0xFFFF)
  }

  method PadUnits(name: seq<Half>) returns (units: seq<Half>)
    ensures units == Padded(name)
  {
    units := name + [0];
    while |units| % UNITS_PER_ENTRY != 0
      invariant |name| < |units| <= |Padded(name)| && units == Padded(name)[..|units|]
      decreases |Padded(name)| - |units|
    {
      units := units + [0xFFFF];
    }
  }

  function EntryCount(name: seq<Half>): (n: nat)
    ensures n >= 1 && n * UNITS_PER_ENTRY == |Padded(name)|
  {
    |Padded(name)| / UNITS_PER_ENTRY
  }

  /** The first n units stand in their places. */
  predicate Laid(e: seq<Byte>, chunk: seq<Half>, n: nat)
    requires |e| == 32 && n <= |chunk| == UNITS_PER_ENTRY
  {
    forall j :: 0 <= j < n ==> e[Position(j)] as int + 0x100 * e[Position(j) + 1] as int == chunk[j]
  }

  predicate Headed(e: seq<Byte>, sequence: Byte, checksum: Byte)
    requires |e| == 32
  {
    e[0] == sequence && e[11] == LONG_NAME_ATTRIBUTE && e[12] == 0 && e[13] == checksum
  }

  lemma LaidNext(e: seq<Byte>, e': seq<Byte>, chunk: seq<Half>, n: nat, sequence: Byte, checksum: Byte)
    requires |e| == |e'| == 32 && n < |chunk| == UNITS_PER_ENTRY && Laid(e, chunk, n) && Headed(e, sequence, checksum)
    requires e'[Position(n)] as int + 0x100 * e'[Position(n) + 1] as int == chunk[n]
    requires forall x :: 0 <= x < 32 && x != Position(n) && x != Position(n) + 1 ==> e'[x] == e[x]
    ensures Laid(e', chunk, n + 1) && Headed(e', sequence, checksum)
  {
    forall j | 0 <= j < n
      ensures e'[Position(j)] == e[Position(j)] && e'[Position(j) + 1] == e[Position(j) + 1]
    {
      PositionsApart(j, n);
    }
  }

  lemma PositionsApart(j: nat, n: nat)
    requires j < n < UNITS_PER_ENTRY
    ensures Position(j) + 1 < Position(n)
  {
  }

  lemma LaidReads(e: DirectoryEntry, chunk: seq<Half>, sequence: Byte, checksum: Byte)
    requires |chunk| == UNITS_PER_ENTRY && Laid(e, chunk, UNITS_PER_ENTRY) && Headed(e, sequence, checksum)
    ensures e[0] == sequence && e[11] == LONG_NAME_ATTRIBUTE && e[12] == 0 && e[13] == checksum && Units(e) == chunk
  {
    assert forall j :: 0 <= j < UNITS_PER_ENTRY ==> Unit(e, j) == chunk[j];
  }

  lemma NothingLaid(e: seq<Byte>, chunk: seq<Half>, sequence: Byte, checksum: Byte)
    requires |e| == 32 && |chunk| == UNITS_PER_ENTRY
    requires e[0] == sequence && e[11] == LONG_NAME_ATTRIBUTE && e[12] == 0 && e[13] == checksum
    ensures Laid(e, chunk, 0) && Headed(e, sequence, checksum)
  {
  }

  /** One entry, its thirteen units scattered over three runs of bytes. */
  method BuildEntry(sequence: Byte, checksum: Byte, chunk: seq<Half>) returns (entry: DirectoryEntry)
    requires |chunk| == UNITS_PER_ENTRY
    ensures entry[0] == sequence && entry[11] == LONG_NAME_ATTRIBUTE && entry[12] == 0 && entry[13] == checksum
    ensures Units(entry) == chunk
  {
    hide Laid, Headed;
    var e := new Byte[32](_ => 0);
    e[0], e[11], e[12], e[13] := sequence, LONG_NAME_ATTRIBUTE, 0, checksum;
    NothingLaid(e[..], chunk, sequence, checksum);
    var positions := [(1, 5), (14, 6), (28, 2)];
    var chunkIndex := 0;
    var p := 0;
    while p < 3
      invariant 0 <= p <= 3 && e.Length == 32 && fresh(e)
      invariant chunkIndex == (if p == 0 then 0 else if p == 1 then 5 else if p == 2 then 11 else 13)
      invariant Headed(e[..], sequence, checksum) && Laid(e[..], chunk, chunkIndex)
    {
      var (offset, count) := positions[p];
      ghost var first := chunkIndex;
      var n := 0;
      while n < count
        invariant 0 <= n <= count && chunkIndex == first + n && offset == positions[p].0 + 2 * n && fresh(e)
        invariant Headed(e[..], sequence, checksum) && Laid(e[..], chunk, chunkIndex)
      {
        assert offset == Position(chunkIndex);
        ghost var before := e[..];
        var unit := chunk[chunkIndex];
        e[offset], e[offset + 1] := unit % 0x100, unit / 0x100;
        LaidNext(before, e[..], chunk, chunkIndex, sequence, checksum);
        offset, chunkIndex, n := offset + 2, chunkIndex + 1, n + 1;
      }
      p := p + 1;
    }
    entry := e[..];
    LaidReads(entry, chunk, sequence, checksum);
  }

  /** n with the last-part bit set. */
  function Marked(n: nat): nat { if n / LAST_ENTRY % 2 == 1 then n else n + LAST_ENTRY }

  /** Entry k of the long name: part n - k, marked when it is the last part. */
  predicate EntryFor(e: DirectoryEntry, k: nat, name: seq<Half>, checksum: Byte)
    requires k < EntryCount(name)
  {
    var n := EntryCount(name);
    && e[0] as int == (if k == 0 then Marked(n) else n - k)
    && e[11] == LONG_NAME_ATTRIBUTE && e[12] == 0 && e[13] == checksum
    && Units(e) == Padded(name)[(n - 1 - k) * UNITS_PER_ENTRY..(n - k) * UNITS_PER_ENTRY]
  }

  /** The entries of a long name, in the order they are stored. */
  ghost predicate EntriesFor(entries: seq<DirectoryEntry>, name: seq<Half>, shortName: seq<Byte>) {
    && |entries| == EntryCount(name)
    && forall k :: 0 <= k < |entries| ==> EntryFor(entries[k], k, name, Checksum(shortName))
  }

  /** The builder; none when the name is empty or a sequence number does not fit its byte. */
  method BuildEntries(name: seq<Half>, shortName: seq<Byte>) returns (built: Option<seq<DirectoryEntry>>)
    ensures built == None <==> name == [] || EntryCount(name) > 0xFF
    ensures built.Some? ==> EntriesFor(built.value, name, shortName)
  {
    if name == [] {
      return None;
    }
    var units := PadUnits(name);
    var checksum := ShortNameChecksum(shortName);
    var n := |units| / UNITS_PER_ENTRY;
    var entries := [];
    while |entries| < n
      invariant |entries| <= n && (|entries| > 0 ==> n <= 0xFF)
      invariant forall k :: 0 <= k < |entries| ==> EntryFor(entries[k], k, name, checksum)
    {
      var k := |entries|;
      var sequence := n - k;
      if k == 0 {
        sequence := Marked(sequence);
      }
      if sequence > 0xFF {
        return None;
      }
      var part := units[(n - 1 - k) * UNITS_PER_ENTRY..(n - k) * UNITS_PER_ENTRY];
      var entry := BuildEntry(sequence, checksum, part);
      entries := entries + [entry];
    }
    built := Some(entries);
  }

  // ---------------------------------------------------------------- round trip

  lemma {:induction false} AssembleParts(entries: seq<DirectoryEntry>, k: nat, name: seq<Half>, checksum: Byte)
    requires |entries| == EntryCount(name) && k <= |entries|
    requires forall j :: 0 <= j < |entries| ==> EntryFor(entries[j], j, name, checksum)
    ensures Assemble(entries[k..]) == Padded(name)[..(|entries| - k) * UNITS_PER_ENTRY]
    decreases |entries| - k
  {
    if k < |entries| {
      AssembleParts(entries, k + 1, name, checksum);
      assert entries[k..][1..] == entries[k + 1..];
      assert EntryFor(entries[k], k, name, checksum);
    }
  }

  lemma {:induction false} NulEndsName(name: seq<Half>, rest: seq<Half>)
    requires 0 !in name
    ensures UpToNul(name + [0] + rest) == name
  {
    var all := name + [0] + rest;
    if name != [] {
      assert all[1..] == name[1..] + [0] + rest;
      NulEndsName(name[1..], rest);
    }
  }

  lemma PaddedReadsBack(name: seq<Half>)
    requires 0 !in name
    ensures UpToNul(Padded(name)) == name
  {
    hide UpToNul;
    var fill := (UNITS_PER_ENTRY - (|name| + 1) % UNITS_PER_ENTRY) % UNITS_PER_ENTRY;
    NulEndsName(name, seq(fill, _ => 0xFFFF));
  }

  lemma ManyUnits(name: seq<Half>)
    ensures |name| <= 818 <==> EntryCount(name) < LAST_ENTRY
  {
    hide Padded;
  }

  /** Whatever name goes in comes back, up to 818 units (the FAT limit is 255); beyond that no reader
      can make a name of the entries. */
  lemma NameRoundTrip(entries: seq<DirectoryEntry>, name: seq<Half>, shortName: seq<Byte>)
    requires 0 !in name && EntriesFor(entries, name, shortName)
    ensures Decode(entries, shortName) == if |name| <= 818 then Some(name) else None
  {
    hide Padded, Assemble, UpToNul, Units;
    AssembleParts(entries, 0, name, Checksum(shortName));
    assert entries[0..] == entries;
    PaddedReadsBack(name);
    assert Padded(name)[..|Padded(name)|] == Padded(name);
    ManyUnits(name);
    forall k | 0 <= k < |entries| < LAST_ENTRY
      ensures InSequence(entries[k], k, |entries|, Checksum(shortName))
    {
      assert EntryFor(entries[k], k, name, Checksum(shortName));
    }
  }
}
