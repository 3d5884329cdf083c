/** Building the FAT32 boot partition (hdl/little64_cores/litex_linux_boot.py), proved by reading it
    back with the reader of FatVolume. */
module FatBuilder {
  import opened Buffers
  import opened Words
  import opened LongNames
  import opened FatVolume

  /** A file to store; short names are eleven bytes, long names UTF-16 units. */
  datatype File = File(shortName: seq<Byte>, payload: seq<Byte>, longName: Option<seq<Half>>)

  predicate Nameable(f: File) {
    && |f.shortName| == 11 && f.shortName[0] != 0 && f.shortName[0] != 0xE5
    && (f.longName.Some? ==> f.longName.value != [] && 0 !in f.longName.value)
  }

  // ---------------------------------------------------------------- boot sector

  /** What a reader takes from a boot sector. */
  predicate BootSectorFor(b: seq<Byte>, g: Geometry, v: Volume) {
    |b| == SECTOR && IsFat32(b) && Mount(b) == g && Describe(b) == v
  }

  lemma FieldsRead(b: seq<Byte>, g: Geometry, v: Volume)
    requires |b| == SECTOR && v.total < 0x1_0000_0000 && v.hidden < 0x1_0000_0000 && v.infoSector == 1 && v.backupSector == 6
    requires Part(b, 17, 19) == Lanes(2, 0) && Part(b, 19, 21) == Lanes(2, 0) && Part(b, 22, 24) == Lanes(2, 0) && Part(b, 42, 44) == Lanes(2, 0)
    requires Part(b, 28, 32) == Lanes(4, v.hidden) && Part(b, 32, 36) == Lanes(4, v.total)
    requires Part(b, 48, 50) == Lanes(2, 1) && Part(b, 50, 52) == Lanes(2, 6)
    requires Part(b, 66, 67) == [0x29] && Part(b, 71, 82) == v.name && Part(b, 82, 90) == [0x46, 0x41, 0x54, 0x33, 0x32, 0x20, 0x20, 0x20]
    requires g.spc < 0x100 && g.reserved == RESERVED && g.numFats == 2 && g.root == 2 && g.fatSectors < 0x1_0000_0000
    requires Part(b, 11, 13) == Lanes(2, SECTOR) && Part(b, 13, 14) == [g.spc] && Part(b, 14, 16) == Lanes(2, g.reserved)
    requires Part(b, 16, 17) == [g.numFats] && Part(b, 36, 40) == Lanes(4, g.fatSectors) && Part(b, 44, 48) == Lanes(4, g.root)
    requires Part(b, 510, 512) == [0x55, 0xAA]
    ensures BootSectorFor(b, g, v)
  {
    hide Lanes, Number;
    LittleEndian(2, 0);
    LittleEndian(2, 1);
    LittleEndian(2, 6);
    LittleEndian(4, v.total);
    LittleEndian(4, v.hidden);
    assert b[66] == Part(b, 66, 67)[0];
    LittleEndian(2, SECTOR);
    LittleEndian(2, g.reserved);
    LittleEndian(4, g.fatSectors);
    LittleEndian(4, g.root);
    assert b[13] == Part(b, 13, 14)[0] && b[16] == Part(b, 16, 17)[0];
    assert b[510] == Part(b, 510, 512)[0] && b[511] == Part(b, 510, 512)[1];
  }

  method PutWideFields(b: Buffer, g: Geometry, lba: nat, sectors: nat)
    requires b.bytes.Length == SECTOR
    modifies b.bytes
    ensures Part(b.bytes[..], 28, 32) == Lanes(4, lba) && Part(b.bytes[..], 32, 36) == Lanes(4, sectors)
    ensures Part(b.bytes[..], 36, 40) == Lanes(4, g.fatSectors) && Part(b.bytes[..], 42, 44) == Lanes(2, 0)
    ensures Part(b.bytes[..], 44, 48) == Lanes(4, g.root) && Part(b.bytes[..], 48, 50) == Lanes(2, 1) && Part(b.bytes[..], 50, 52) == Lanes(2, 6)
    ensures forall i, j :: 0 <= i <= j <= 28 ==> Part(b.bytes[..], i, j) == Part(old(b.bytes[..]), i, j)
  {
    hide Part, Lanes;
    b.PutField(28, Lanes(4, lba));
    b.PutField(32, Lanes(4, sectors));
    b.PutField(36, Lanes(4, g.fatSectors));
    b.PutField(40, Lanes(2, 0));
    b.PutField(42, Lanes(2, 0));
    b.PutField(44, Lanes(4, g.root));
    b.PutField(48, Lanes(2, 1));
    b.PutField(50, Lanes(2, 6));
  }

  method PutVolumeFields(b: Buffer, volumeLabel: seq<Byte>)
    requires b.bytes.Length == SECTOR && |volumeLabel| == 11
    modifies b.bytes
    ensures Part(b.bytes[..], 66, 67) == [0x29] && Part(b.bytes[..], 71, 82) == volumeLabel
    ensures Part(b.bytes[..], 82, 90) == [0x46, 0x41, 0x54, 0x33, 0x32, 0x20, 0x20, 0x20] && Part(b.bytes[..], 510, 512) == [0x55, 0xAA]
    ensures forall i, j :: 0 <= i <= j <= 64 ==> Part(b.bytes[..], i, j) == Part(old(b.bytes[..]), i, j)
  {
    hide Part, Lanes;
    b.PutField(64, [0x80]);
    b.PutField(66, [0x29]);
    b.PutField(67, Lanes(4, 0x4C36_3444));
    b.PutField(71, volumeLabel);
    b.PutField(82, [0x46, 0x41, 0x54, 0x33, 0x32, 0x20, 0x20, 0x20]);
    b.PutField(510, [0x55, 0xAA]);
  }

  method PutNarrowFields(b: Buffer, g: Geometry)
    requires b.bytes.Length == SECTOR && g.spc < 0x100 && g.numFats < 0x100
    modifies b.bytes
    ensures Part(b.bytes[..], 11, 13) == Lanes(2, SECTOR) && Part(b.bytes[..], 13, 14) == [g.spc]
    ensures Part(b.bytes[..], 14, 16) == Lanes(2, g.reserved) && Part(b.bytes[..], 16, 17) == [g.numFats]
    ensures Part(b.bytes[..], 17, 19) == Lanes(2, 0) && Part(b.bytes[..], 19, 21) == Lanes(2, 0) && Part(b.bytes[..], 22, 24) == Lanes(2, 0)
  {
    hide Part, Lanes;
    b.PutField(0, [0xEB, 0x58, 0x90]);
    b.PutField(3, [0x4C, 0x36, 0x34, 0x46, 0x41, 0x54, 0x33, 0x32]);
    b.PutField(11, Lanes(2, SECTOR));
    b.PutField(13, [g.spc]);
    b.PutField(14, Lanes(2, g.reserved));
    b.PutField(16, [g.numFats]);
    b.PutField(17, Lanes(2, 0));
    b.PutField(19, Lanes(2, 0));
    b.PutField(21, [0xF8]);
    b.PutField(22, Lanes(2, 0));
    b.PutField(24, Lanes(2, 63));
    b.PutField(26, Lanes(2, 255));
  }

  method BuildBootSector(g: Geometry, lba: nat, sectors: nat, volumeLabel: seq<Byte>) returns (boot: seq<Byte>)
    requires g.spc < 0x100 && g.reserved == RESERVED && g.numFats == 2 && g.root == 2
    requires |volumeLabel| == 11 && lba < 0x1_0000_0000 && sectors < 0x1_0000_0000 && g.fatSectors < 0x1_0000_0000
    ensures BootSectorFor(boot, g, Volume(sectors, lba, 1, 6, volumeLabel))
  {
    hide Part, Lanes;
    var b := new Buffer(SECTOR);
    PutNarrowFields(b, g);
    PutWideFields(b, g, lba, sectors);
    PutVolumeFields(b, volumeLabel);
    boot := b.bytes[..];
    FieldsRead(boot, g, Volume(sectors, lba, 1, 6, volumeLabel));
  }

  method BuildInfoSector(free: nat, next: nat) returns (info: seq<Byte>)
    requires free < 0x1_0000_0000 && next < 0x1_0000_0000
    ensures IsInfo(info) && Number(info[488..492]) == free && Number(info[492..496]) == next
  {
    hide Lanes, Number;
    var b := new Buffer(SECTOR);
    b.PutField(0, [0x52, 0x52, 0x61, 0x41]);
    b.PutField(484, [0x72, 0x72, 0x41, 0x61]);
    b.PutField(488, Lanes(4, free));
    b.PutField(492, Lanes(4, next));
    b.PutField(510, [0x55, 0xAA]);
    info := b.bytes[..];
    assert Part(info, 0, 4) == [0x52, 0x52, 0x61, 0x41] && Part(info, 484, 488) == [0x72, 0x72, 0x41, 0x61] && Part(info, 510, 512) == [0x55, 0xAA];
    assert info[510] == Part(info, 510, 512)[0] && info[511] == Part(info, 510, 512)[1];
    assert Part(info, 488, 492) == Lanes(4, free) && Part(info, 492, 496) == Lanes(4, next);
    LittleEndian(4, free);
    LittleEndian(4, next);
  }

  // ---------------------------------------------------------------- cluster allocation

  /** At least one cluster each. */
  function FileClusters(f: File, clusterSize: int): (n: nat)
    requires clusterSize > 0
    ensures n >= 1
  {
    if CeilDiv(|f.payload|, clusterSize) > 1 then CeilDiv(|f.payload|, clusterSize) else 1
  }

  lemma ClustersHold(f: File, clusterSize: int)
    requires clusterSize > 0
    ensures
      var n := FileClusters(f, clusterSize);
      |f.payload| <= n * clusterSize && (n - 1) * clusterSize <= |f.payload|
  {
    var n, q := |f.payload|, CeilDiv(|f.payload|, clusterSize);
    assert n + clusterSize - 1 == q * clusterSize + (n + clusterSize - 1) % clusterSize;
    assert (q - 1) * clusterSize == q * clusterSize - clusterSize;
    if q <= 0 {
      ProductNonNegative(-q, clusterSize);
    }
  }

  /** Where file i starts: files follow the root directory's cluster one after the other. */
  function First(files: seq<File>, clusterSize: int, i: nat): (c: nat)
    requires clusterSize > 0 && i <= |files|
    ensures c >= 3
  {
    if i == 0 then 3 else First(files, clusterSize, i - 1) + FileClusters(files[i - 1], clusterSize)
  }

  lemma {:induction false} FirstsGrow(files: seq<File>, clusterSize: int, i: nat, j: nat)
    requires clusterSize > 0 && i < j <= |files|
    ensures First(files, clusterSize, i) + FileClusters(files[i], clusterSize) <= First(files, clusterSize, j)
    decreases j
  {
    if i + 1 < j {
      FirstsGrow(files, clusterSize, i, j - 1);
    }
  }

  method PlanFiles(files: seq<File>, clusterSize: int) returns (firsts: seq<nat>, clusters: seq<nat>, next: nat)
    requires clusterSize > 0
    ensures |firsts| == |clusters| == |files| && next == First(files, clusterSize, |files|)
    ensures forall i :: 0 <= i < |files| ==>
              firsts[i] == First(files, clusterSize, i) && clusters[i] == FileClusters(files[i], clusterSize)
  {
    hide FileClusters, First;
    NoFiles(files, clusterSize);
    firsts, clusters, next := [], [], 3;
    for i := 0 to |files|
      invariant |firsts| == |clusters| == i && next == First(files, clusterSize, i)
      invariant forall k :: 0 <= k < i ==>
                  firsts[k] == First(files, clusterSize, k) && clusters[k] == FileClusters(files[k], clusterSize)
    {
      var count := FileClusters(files[i], clusterSize);
      NextFirst(files, clusterSize, i);
      firsts, clusters := firsts + [next], clusters + [count];
      next := next + count;
    }
  }

  /** The file allocation table: each file's clusters linked, everything from next on free. */
  predicate FatFor(fat: seq<nat>, files: seq<File>, clusterSize: int, count: nat)
    requires clusterSize > 0
  {
    && |fat| == count + 2 && fat[0] == 0x0FFF_FFF8 && fat[1] == 0xFFFF_FFFF
    && |fat| > 2 && fat[2] == 0x0FFF_FFFF
    && (forall i :: 0 <= i < |files| ==> Links(fat, First(files, clusterSize, i), FileClusters(files[i], clusterSize)))
    && (forall c :: First(files, clusterSize, |files|) <= c < |fat| ==> fat[c] == 0)
  }

  method FillFat(files: seq<File>, clusterSize: int, firsts: seq<nat>, clusters: seq<nat>, count: nat) returns (entries: array<nat>)
    requires clusterSize > 0 && |firsts| == |clusters| == |files|
    requires forall i :: 0 <= i < |files| ==>
               firsts[i] == First(files, clusterSize, i) && clusters[i] == FileClusters(files[i], clusterSize)
    requires First(files, clusterSize, |files|) <= count + 2 < 0x1_0000_0000
    ensures fresh(entries) && FatFor(entries[..], files, clusterSize, count)
    ensures forall c :: 0 <= c < entries.Length ==> entries[c] < 0x1_0000_0000
  {
    hide FileClusters, First, Links;
    NoFiles(files, clusterSize);
    entries := new nat[count + 2](_ => 0);
    entries[0], entries[1], entries[2] := 0x0FFF_FFF8, 0xFFFF_FFFF, 0x0FFF_FFFF;
    var i := 0;
    while i < |files|
      invariant 0 <= i <= |files|
      invariant forall c :: 0 <= c < entries.Length ==> entries[c] < 0x1_0000_0000
      invariant entries[0] == 0x0FFF_FFF8 && entries[1] == 0xFFFF_FFFF && entries[2] == 0x0FFF_FFFF
      invariant forall k :: 0 <= k < i ==> Links(entries[..], First(files, clusterSize, k), FileClusters(files[k], clusterSize))
      invariant forall c :: First(files, clusterSize, i) <= c < entries.Length ==> entries[c] == 0
    {
      FirstsGrow(files, clusterSize, i, |files|);
      NextFirst(files, clusterSize, i);
      ghost var before := entries[..];
      LinkFile(entries, firsts[i], clusters[i]);
      EarlierLinksKept(before, entries[..], files, clusterSize, i);
      i := i + 1;
    }
  }

  lemma NoFiles(files: seq<File>, clusterSize: int)
    requires clusterSize > 0
    ensures First(files, clusterSize, 0) == 3
    ensures First(files, clusterSize, |files|) >= 3
  {
  }

  lemma NextFirst(files: seq<File>, clusterSize: int, i: nat)
    requires clusterSize > 0 && i < |files|
    ensures First(files, clusterSize, i + 1) == First(files, clusterSize, i) + FileClusters(files[i], clusterSize)
  {
  }

  lemma EarlierLinksKept(before: seq<nat>, after: seq<nat>, files: seq<File>, clusterSize: int, i: nat)
    requires clusterSize > 0 && i <= |files| && |before| == |after|
    requires forall k :: 0 <= k < i ==> Links(before, First(files, clusterSize, k), FileClusters(files[k], clusterSize))
    requires forall c :: 0 <= c < |before| && c < First(files, clusterSize, i) ==> after[c] == before[c]
    ensures forall k :: 0 <= k < i ==> Links(after, First(files, clusterSize, k), FileClusters(files[k], clusterSize))
  {
    hide FileClusters, First;
    forall k | 0 <= k < i
      ensures Links(after, First(files, clusterSize, k), FileClusters(files[k], clusterSize))
    {
      FirstsGrow(files, clusterSize, k, i);
    }
  }

  method LinkFile(entries: array<nat>, first: nat, count: nat)
    requires count >= 1 && first + count <= entries.Length
    modifies entries
    ensures Links(entries[..], first, count)
    ensures forall c :: first <= c < first + count ==> entries[c] == 0x0FFF_FFFF || entries[c] == c + 1
    ensures forall c :: 0 <= c < entries.Length && !(first <= c < first + count) ==> entries[c] == old(entries[c])
  {
    var index := 0;
    while index < count
      invariant 0 <= index <= count
      invariant forall c :: first <= c < first + index ==> entries[c] == if c == first + count - 1 then 0x0FFF_FFFF else c + 1
      invariant forall c :: 0 <= c < entries.Length && !(first <= c < first + count) ==> entries[c] == old(entries[c])
    {
      var cluster := first + index;
      entries[cluster] := if index == count - 1 then 0x0FFF_FFFF else cluster + 1;
      index := index + 1;
    }
  }

  /** The table as bytes. */
  method SerializeFat(fat: seq<nat>, size: nat) returns (bytes: seq<Byte>)
    requires 4 * |fat| <= size && forall c :: 0 <= c < |fat| ==> fat[c] < 0x1_0000_0000
    ensures |bytes| == size && forall c :: 0 <= c < |fat| ==> Number(bytes[4 * c..4 * c + 4]) == fat[c]
  {
    hide Lanes, Number, Splice;
    var b := new Buffer(size);
    var c := 0;
    while c < |fat|
      invariant 0 <= c <= |fat|
      invariant forall k :: 0 <= k < c ==> Number(b.bytes[..][4 * k..4 * k + 4]) == fat[k]
    {
      ghost var before := b.bytes[..];
      b.Put(4 * c, Lanes(4, fat[c]));
      LittleEndian(4, fat[c]);
      SpliceHolds(before, 4 * c, Lanes(4, fat[c]));
      forall k | 0 <= k < c
        ensures Number(b.bytes[..][4 * k..4 * k + 4]) == fat[k]
      {
        SpliceKeeps(before, 4 * c, Lanes(4, fat[c]), 4 * k, 4 * k + 4);
      }
      c := c + 1;
    }
    bytes := b.bytes[..];
  }

  // ---------------------------------------------------------------- root directory

  method BuildFileEntry(f: File, first: nat) returns (entry: DirectoryEntry)
    requires Nameable(f) && first < 0x1_0000_0000 && |f.payload| < 0x1_0000_0000
    ensures entry[0] != 0 && entry[0] != 0xE5 && entry[11] == 0x20 && entry[..11] == f.shortName
    ensures Number(entry[26..28]) + 0x1_0000 * Number(entry[20..22]) == first && Number(entry[28..32]) == |f.payload|
  {
    hide Lanes, Number;
    var b := new Buffer(32);
    b.PutField(0, f.shortName);
    b.PutField(11, [0x20]);
    b.PutField(20, Lanes(2, first / 0x1_0000));
    b.PutField(26, Lanes(2, first % 0x1_0000));
    b.PutField(28, Lanes(4, |f.payload|));
    entry := b.bytes[..];
    assert Part(entry, 0, 11) == f.shortName && Part(entry, 11, 12) == [0x20];
    assert Part(entry, 20, 22) == Lanes(2, first / 0x1_0000) && Part(entry, 26, 28) == Lanes(2, first % 0x1_0000);
    LittleEndian(2, first / 0x1_0000);
    LittleEndian(2, first % 0x1_0000);
    LittleEndian(4, |f.payload|);
    assert entry[0] == Part(entry, 0, 11)[0] && entry[11] == Part(entry, 11, 12)[0];
  }

  function Flat(entries: seq<DirectoryEntry>): (r: seq<Byte>)
    ensures |r| == 32 * |entries|
  {
    if entries == [] then [] else Flat(entries[..|entries| - 1]) + entries[|entries| - 1]
  }

  /** However the directory goes on, these bytes list these files first. */
  ghost predicate Prints(dir: seq<Byte>, listed: seq<Listed>) {
    forall rest: seq<Byte> {:trigger ListDirectory(dir + rest, [])} :: ListDirectory(dir + rest, []) == listed + ListDirectory(rest, [])
  }

  predicate LongEntry(e: DirectoryEntry) { e[0] != 0 && e[0] != 0xE5 && e[11] == LONG_NAME_ATTRIBUTE }

  lemma {:induction false} LongEntriesPend(entries: seq<DirectoryEntry>, rest: seq<Byte>)
    requires forall k :: 0 <= k < |entries| ==> LongEntry(entries[k])
    ensures ListDirectory(Flat(entries) + rest, []) == ListDirectory(rest, entries)
  {
    if entries == [] {
      assert Flat(entries) + rest == rest;
    } else {
      var init, e := entries[..|entries| - 1], entries[|entries| - 1];
      LongEntriesPend(init, e + rest);
      assert Flat(entries) + rest == Flat(init) + (e + rest);
      assert (e + rest)[..32] == e && (e + rest)[32..] == rest;
      assert init + [e] == entries;
    }
  }

  /** A file's long-name entries and its short entry list that file. */
  lemma FilePrints(entries: seq<DirectoryEntry>, e: DirectoryEntry)
    requires forall k :: 0 <= k < |entries| ==> LongEntry(entries[k])
    requires e[0] != 0 && e[0] != 0xE5 && e[11] != LONG_NAME_ATTRIBUTE
    ensures Prints(Flat(entries) + e, [ListedFrom(e, entries)])
  {
    forall rest: seq<Byte>
      ensures ListDirectory(Flat(entries) + e + rest, []) == [ListedFrom(e, entries)] + ListDirectory(rest, [])
    {
      LongEntriesPend(entries, e + rest);
      assert Flat(entries) + e + rest == Flat(entries) + (e + rest);
      assert (e + rest)[..32] == e && (e + rest)[32..] == rest;
    }
  }

  lemma PrintsTogether(dir: seq<Byte>, listed: seq<Listed>, dir': seq<Byte>, listed': seq<Listed>)
    requires Prints(dir, listed) && Prints(dir', listed')
    ensures Prints(dir + dir', listed + listed')
  {
    hide ListDirectory;
    forall rest: seq<Byte>
      ensures ListDirectory(dir + dir' + rest, []) == listed + listed' + ListDirectory(rest, [])
    {
      assert dir + dir' + rest == dir + (dir' + rest);
      assert ListDirectory(dir' + rest, []) == listed' + ListDirectory(rest, []);
    }
  }

  function LongEntries(f: File): nat { if f.longName.Some? then EntryCount(f.longName.value) else 0 }

  function DirectorySize(files: seq<File>): nat {
    if files == [] then 0 else DirectorySize(files[..|files| - 1]) + 32 * (LongEntries(files[|files| - 1]) + 1)
  }

  lemma {:induction false} DirectoryGrows(files: seq<File>, i: nat)
    requires i < |files|
    ensures DirectorySize(files[..i]) + 32 * (LongEntries(files[i]) + 1) == DirectorySize(files[..i + 1]) <= DirectorySize(files)
    ensures 32 * |files| <= DirectorySize(files)
    decreases |files|
  {
    assert files[..i + 1][..i] == files[..i];
    var init := files[..|files| - 1];
    if i < |init| {
      DirectoryGrows(init, i);
      assert init[..i] == files[..i] && init[..i + 1] == files[..i + 1];
    } else {
      assert files[..i + 1] == files;
      if i > 0 {
        DirectoryGrows(init, i - 1);
      }
    }
  }

  /** What a reader should list for a file. */
  function ListedFor(f: File, first: nat): Listed { Listed(f.shortName, 0x20, f.longName, first, |f.payload|) }

  function Listing(files: seq<File>, clusterSize: int): (r: seq<Listed>)
    requires clusterSize > 0
    ensures |r| == |files|
  {
    seq(|files|, i requires 0 <= i < |files| => ListedFor(files[i], First(files, clusterSize, i)))
  }

  lemma LongEntriesOfName(entries: seq<DirectoryEntry>, f: File)
    requires Nameable(f) && f.longName.Some? && LongEntries(f) < 16 && EntriesFor(entries, f.longName.value, f.shortName)
    ensures forall k :: 0 <= k < |entries| ==> LongEntry(entries[k])
    ensures Decode(entries, f.shortName) == f.longName
  {
    NameRoundTrip(entries, f.longName.value, f.shortName);
    forall k | 0 <= k < |entries|
      ensures LongEntry(entries[k])
    {
      assert EntryFor(entries[k], k, f.longName.value, Checksum(f.shortName));
    }
  }

  /** Writes every file's entries into the root directory's cluster, and the end mark after them. */
  method WriteDirectory(b: Buffer, root: nat, files: seq<File>, clusterSize: int, firsts: seq<nat>) returns (ghost dir: seq<Byte>)
    requires clusterSize > 0 && root + SECTOR <= b.bytes.Length && DirectorySize(files) < SECTOR
    requires |firsts| == |files| && forall i :: 0 <= i < |files| ==> firsts[i] == First(files, clusterSize, i) < 0x1_0000_0000
    requires forall f :: f in files ==> Nameable(f) && |f.payload| < 0x1_0000_0000
    modifies b.bytes
    ensures |dir| == DirectorySize(files) && Prints(dir, Listing(files, clusterSize))
    ensures b.bytes[..] == Splice(old(b.bytes[..]), root, dir + [0])
  {
    hide Splice, Prints, Nameable, First, Listing, LongEntries;
    dir := [];
    NoDirectory(files, clusterSize);
    SpliceNothing(b.bytes[..], root);
    var dirOffset := 0;
    var i := 0;
    while i < |files|
      invariant 0 <= i <= |files| && dirOffset == |dir| == DirectorySize(files[..i]) < SECTOR
      invariant Prints(dir, Listing(files, clusterSize)[..i])
      invariant b.bytes[..] == Splice(old(b.bytes[..]), root, dir)
    {
      DirectoryGrows(files, i);
      ghost var block;
      dirOffset, block := WriteFileEntries(b, root, dirOffset, files[i], firsts[i]);
      SpliceTwice(old(b.bytes[..]), root, dir, block);
      ListingNext(files, clusterSize, i);
      PrintsTogether(dir, Listing(files, clusterSize)[..i], block, [ListedFor(files[i], firsts[i])]);
      dir := dir + block;
      i := i + 1;
    }
    assert files[..i] == files;
    b.Put(root + dirOffset, [0]);
    SpliceTwice(old(b.bytes[..]), root, dir, [0]);
  }

  lemma SpliceNothing(s: seq<Byte>, offset: nat)
    requires offset <= |s|
    ensures Splice(s, offset, []) == s
  {
  }

  lemma NoDirectory(files: seq<File>, clusterSize: int)
    requires clusterSize > 0
    ensures DirectorySize(files[..0]) == 0 && Prints([], Listing(files, clusterSize)[..0])
    ensures Listing(files, clusterSize)[..|files|] == Listing(files, clusterSize)
  {
    forall rest: seq<Byte>
      ensures ListDirectory([] + rest, []) == [] + ListDirectory(rest, [])
    {
      assert [] + rest == rest;
    }
  }

  lemma ListingNext(files: seq<File>, clusterSize: int, i: nat)
    requires clusterSize > 0 && i < |files|
    ensures Listing(files, clusterSize)[..i + 1] == Listing(files, clusterSize)[..i] + [ListedFor(files[i], First(files, clusterSize, i))]
  {
    hide First;
  }

  /** The long-name entries of a file, none if it has only its short name. */
  method LongEntriesFor(f: File) returns (entries: seq<DirectoryEntry>)
    requires Nameable(f) && LongEntries(f) < 16
    ensures |entries| == LongEntries(f) && Decode(entries, f.shortName) == f.longName
    ensures forall k :: 0 <= k < |entries| ==> LongEntry(entries[k])
  {
    entries := [];
    if f.longName.Some? {
      var built := BuildEntries(f.longName.value, f.shortName);
      entries := built.value;
      LongEntriesOfName(entries, f);
    }
  }

  method PutEntries(b: Buffer, at: nat, entries: seq<DirectoryEntry>)
    requires at + 32 * |entries| <= b.bytes.Length
    modifies b.bytes
    ensures b.bytes[..] == Splice(old(b.bytes[..]), at, Flat(entries))
  {
    hide Splice;
    SpliceNothing(b.bytes[..], at);
    var k := 0;
    while k < |entries|
      invariant 0 <= k <= |entries|
      invariant b.bytes[..] == Splice(old(b.bytes[..]), at, Flat(entries[..k]))
    {
      b.Put(at + 32 * k, entries[k]);
      SpliceTwice(old(b.bytes[..]), at, Flat(entries[..k]), entries[k]);
      assert entries[..k + 1][..k] == entries[..k];
      k := k + 1;
    }
    assert entries[..k] == entries;
  }

  method WriteFileEntries(b: Buffer, root: nat, from: nat, f: File, first: nat) returns (dirOffset: nat, ghost block: seq<Byte>)
    requires root + SECTOR <= b.bytes.Length && from + 32 * (LongEntries(f) + 1) < SECTOR
    requires Nameable(f) && |f.payload| < 0x1_0000_0000 && first < 0x1_0000_0000
    modifies b.bytes
    ensures |block| == 32 * (LongEntries(f) + 1) && dirOffset == from + |block|
    ensures Prints(block, [ListedFor(f, first)])
    ensures b.bytes[..] == Splice(old(b.bytes[..]), root + from, block)
  {
    hide Splice, Nameable, Prints, Flat, Decode, LongEntries, LongEntry, Number;
    var entries := LongEntriesFor(f);
    PutEntries(b, root + from, entries);
    var entry := BuildFileEntry(f, first);
    b.Put(root + from + 32 * |entries|, entry);
    SpliceTwice(old(b.bytes[..]), root + from, Flat(entries), entry);
    dirOffset := from + 32 * (|entries| + 1);
    block := Flat(entries) + entry;
    FilePrints(entries, entry);
    assert ListedFrom(entry, entries) == ListedFor(f, first);
  }

  // ---------------------------------------------------------------- file contents

  lemma MoreClusters(m: nat, n: nat, size: nat)
    requires (m + 1) * size < n * size
    ensures m + 1 < n
  {
    if n <= m + 1 {
      ProductMonotone(size, n, m + 1);
    }
  }

  /** Copies a payload cluster by cluster along the chain; `ended` is the source's "unexpected end"
      error, which a linked chain of enough clusters never raises. */
  method WriteFile(b: Buffer, g: Geometry, fat: array<nat>, first: nat, ghost n: nat, payload: seq<Byte>) returns (ended: bool)
    requires g.spc >= 1 && b.bytes != fat as object
    requires first >= 2 && Links(fat[..], first, n) && first + n <= END_OF_CHAIN && |payload| <= n * ClusterSize(g)
    requires ClusterOffset(g, first) + |payload| <= b.bytes.Length && 0 <= ClusterOffset(g, first)
    modifies b.bytes
    ensures !ended
    ensures b.bytes[..] == Splice(old(b.bytes[..]), ClusterOffset(g, first), payload)
  {
    hide Splice, ClusterOffset, ClusterSize;
    ended := false;
    ghost var base := ClusterOffset(g, first);
    var payloadOffset, cluster := 0, first;
    ghost var m := 0;
    SpliceNothing(b.bytes[..], base);
    ClusterStep(g, first, 0);
    assert payload[..0] == [];
    while payloadOffset < |payload|
      invariant !ended && 0 <= payloadOffset <= |payload| && fat[..] == old(fat[..])
      invariant payloadOffset < |payload| ==>
                  cluster == first + m && m < n && payloadOffset == m * ClusterSize(g) && ClusterOffset(g, cluster) == base + payloadOffset
      invariant b.bytes[..] == Splice(old(b.bytes[..]), base, payload[..payloadOffset])
      decreases |payload| - payloadOffset
    {
      var offset := ClusterOffset(g, cluster);
      ClusterSizePositive(g);
      var chunk := if ClusterSize(g) < |payload| - payloadOffset then ClusterSize(g) else |payload| - payloadOffset;
      b.Put(offset, payload[payloadOffset..payloadOffset + chunk]);
      SpliceTwice(old(b.bytes[..]), base, payload[..payloadOffset], payload[payloadOffset..payloadOffset + chunk]);
      assert payload[..payloadOffset] + payload[payloadOffset..payloadOffset + chunk] == payload[..payloadOffset + chunk];
      payloadOffset := payloadOffset + chunk;
      if payloadOffset >= |payload| {
        break;
      }
      assert (m + 1) * ClusterSize(g) == m * ClusterSize(g) + ClusterSize(g);
      MoreClusters(m, n, ClusterSize(g));
      assert fat[..][cluster] == cluster + 1;
      cluster := fat[cluster];
      ended := cluster >= END_OF_CHAIN;
      if ended {
        break;
      }
      m := m + 1;
      ClusterStep(g, first, m);
    }
    assert payload[..payloadOffset] == payload;
  }

  lemma ClusterSizePositive(g: Geometry)
    requires g.spc >= 1
    ensures ClusterSize(g) >= SECTOR
  {
  }

  predicate FileHolds(img: seq<Byte>, g: Geometry, f: File, first: nat) {
    var at := ClusterOffset(g, first);
    0 <= at && at + |f.payload| <= |img| && Part(img, at, at + |f.payload|) == f.payload
  }

  /** File i lies between the root directory and the clusters of file i + 1. */
  lemma FileSpan(files: seq<File>, g: Geometry, i: nat)
    requires g.spc >= 1 && i < |files|
    ensures
      var at := ClusterOffset(g, First(files, ClusterSize(g), i));
      && 0 <= ClusterOffset(g, 3) <= at
      && at + |files[i].payload| <= at + FileClusters(files[i], ClusterSize(g)) * ClusterSize(g)
         == ClusterOffset(g, First(files, ClusterSize(g), i) + FileClusters(files[i], ClusterSize(g)))
  {
    hide First, FileClusters;
    var first, n := First(files, ClusterSize(g), i), FileClusters(files[i], ClusterSize(g));
    ClustersHold(files[i], ClusterSize(g));
    ClusterStep(g, first, n);
    ClusterStep(g, 3, first - 3);
    ClusterStep(g, 2, 1);
    ProductNonNegative(first - 3, ClusterSize(g));
    ProductNonNegative(g.numFats, g.fatSectors);
  }

  lemma OffsetsGrow(g: Geometry, c: int, c': int)
    requires c <= c'
    ensures ClusterOffset(g, c) <= ClusterOffset(g, c')
  {
    ClusterStep(g, c, c' - c);
    ProductNonNegative(c' - c, ClusterSize(g));
  }

  lemma FileKept(img: seq<Byte>, img': seq<Byte>, g: Geometry, f: File, first: nat, from: int, to: int)
    requires FileHolds(img, g, f, first) && SameOutside(img, img', from, to) && ClusterOffset(g, first) + |f.payload| <= from
    ensures FileHolds(img', g, f, first)
  {
  }

  method WriteFiles(b: Buffer, g: Geometry, fat: array<nat>, files: seq<File>, firsts: seq<nat>, count: nat) returns (ended: bool)
    requires g.spc >= 1 && b.bytes != fat as object
    requires FatFor(fat[..], files, ClusterSize(g), count)
    requires |firsts| == |files| && forall i :: 0 <= i < |files| ==> firsts[i] == First(files, ClusterSize(g), i)
    requires First(files, ClusterSize(g), |files|) <= END_OF_CHAIN
    requires ClusterOffset(g, First(files, ClusterSize(g), |files|)) <= b.bytes.Length
    modifies b.bytes
    ensures !ended
    ensures forall i :: 0 <= i < |files| ==> FileHolds(b.bytes[..], g, files[i], firsts[i])
    ensures SameOutside(old(b.bytes[..]), b.bytes[..], ClusterOffset(g, 3), b.bytes.Length)
  {
    hide First, FileClusters, ClusterOffset, ClusterSize, Links, FileHolds, Splice, SameOutside;
    ended := false;
    SameRefl(b.bytes[..], ClusterOffset(g, 3), b.bytes.Length);
    var i := 0;
    while i < |files|
      invariant 0 <= i <= |files| && !ended && fat[..] == old(fat[..])
      invariant forall k :: 0 <= k < i ==> FileHolds(b.bytes[..], g, files[k], firsts[k])
      invariant SameOutside(old(b.bytes[..]), b.bytes[..], ClusterOffset(g, 3), b.bytes.Length)
    {
      ghost var before := b.bytes[..];
      ClusterSizePositive(g);
      ghost var n := FileClusters(files[i], ClusterSize(g));
      FirstsGrow(files, ClusterSize(g), i, |files|);
      FileSpan(files, g, i);
      OffsetsGrow(g, firsts[i] + n, First(files, ClusterSize(g), |files|));
      ended := WriteFile(b, g, fat, firsts[i], n, files[i].payload);
      FileWritten(before, g, files, firsts, i);
      SameTwice(old(b.bytes[..]), before, b.bytes[..], ClusterOffset(g, 3), ClusterOffset(g, firsts[i]), ClusterOffset(g, firsts[i]) + |files[i].payload|);
      i := i + 1;
    }
  }

  lemma SameRefl(s: seq<Byte>, from: int, to: int)
    ensures SameOutside(s, s, from, to)
  {
  }

  lemma SameTwice(s: seq<Byte>, s': seq<Byte>, s'': seq<Byte>, from: int, from': int, to': int)
    requires SameOutside(s, s', from, |s|) && SameOutside(s', s'', from', to') && from <= from' && to' <= |s|
    ensures SameOutside(s, s'', from, |s|)
  {
  }

  lemma FileWritten(before: seq<Byte>, g: Geometry, files: seq<File>, firsts: seq<nat>, i: nat)
    requires g.spc >= 1 && i < |files| == |firsts| && forall k :: 0 <= k < |files| ==> firsts[k] == First(files, ClusterSize(g), k)
    requires forall k :: 0 <= k < i ==> FileHolds(before, g, files[k], firsts[k])
    requires 0 <= ClusterOffset(g, firsts[i]) && ClusterOffset(g, firsts[i]) + |files[i].payload| <= |before|
    ensures
      var at := ClusterOffset(g, firsts[i]);
      var after := Splice(before, at, files[i].payload);
      && (forall k :: 0 <= k <= i ==> FileHolds(after, g, files[k], firsts[k]))
      && SameOutside(before, after, at, at + |files[i].payload|)
  {
    hide First, FileClusters, ClusterOffset, ClusterSize, Splice, SameOutside;
    var at := ClusterOffset(g, firsts[i]);
    var after := Splice(before, at, files[i].payload);
    SpliceHolds(before, at, files[i].payload);
    OnlySpliced(before, at, files[i].payload);
    forall k | 0 <= k < i
      ensures FileHolds(after, g, files[k], firsts[k])
    {
      ClusterSizePositive(g);
      FirstsGrow(files, ClusterSize(g), k, i);
      FileSpan(files, g, k);
      OffsetsGrow(g, firsts[k] + FileClusters(files[k], ClusterSize(g)), firsts[i]);
      FileKept(before, after, g, files[k], firsts[k], at, at + |files[i].payload|);
    }
  }

  // ---------------------------------------------------------------- the partition

  /** Boot sector, information sector and the backups of both. */
  predicate HeaderHolds(img: seq<Byte>, boot: seq<Byte>, info: seq<Byte>)
    requires |img| >= RESERVED * SECTOR
  {
    && Part(img, 0, SECTOR) == boot && Part(img, SECTOR, 2 * SECTOR) == info
    && Part(img, 6 * SECTOR, 7 * SECTOR) == boot && Part(img, 7 * SECTOR, 8 * SECTOR) == info
  }

  lemma HeaderKept(img: seq<Byte>, img': seq<Byte>, from: int, to: int, boot: seq<Byte>, info: seq<Byte>)
    requires |img| >= RESERVED * SECTOR && HeaderHolds(img, boot, info) && SameOutside(img, img', from, to) && RESERVED * SECTOR <= from
    ensures HeaderHolds(img', boot, info)
  {
    hide Part;
  }

  method WriteHeader(b: Buffer, boot: seq<Byte>, info: seq<Byte>)
    requires b.bytes.Length >= RESERVED * SECTOR && |boot| == SECTOR == |info|
    modifies b.bytes
    ensures HeaderHolds(b.bytes[..], boot, info)
    ensures SameOutside(old(b.bytes[..]), b.bytes[..], 0, RESERVED * SECTOR)
  {
    hide Part;
    b.PutField(0, boot);
    b.PutField(SECTOR, info);
    b.PutField(6 * SECTOR, boot);
    b.PutField(7 * SECTOR, info);
  }

  /** Reserved sectors, two FATs and the clusters, in that order and without overlap. */
  lemma Regions(g: Geometry, count: nat, sectors: nat)
    requires g.reserved == RESERVED && g.numFats == 2
    requires 2 * g.fatSectors + count * g.spc <= sectors - RESERVED
    ensures FatOffset(g, 0) == RESERVED * SECTOR
    ensures FatOffset(g, 1) == FatOffset(g, 0) + g.fatSectors * SECTOR
    ensures ClusterOffset(g, 2) == FatOffset(g, 1) + g.fatSectors * SECTOR
    ensures ClusterOffset(g, 3) == ClusterOffset(g, 2) + ClusterSize(g)
    ensures ClusterOffset(g, count + 2) <= sectors * SECTOR
  {
    ClusterStep(g, 2, 1);
  }

  method WriteFats(b: Buffer, g: Geometry, fat: seq<Byte>)
    requires |fat| == g.fatSectors * SECTOR && g.reserved == RESERVED && g.numFats == 2
    requires FatOffset(g, 1) == FatOffset(g, 0) + |fat| && FatOffset(g, 1) + |fat| <= b.bytes.Length
    modifies b.bytes
    ensures Part(b.bytes[..], FatOffset(g, 0), FatOffset(g, 0) + |fat|) == fat
    ensures Part(b.bytes[..], FatOffset(g, 1), FatOffset(g, 1) + |fat|) == fat
    ensures SameOutside(old(b.bytes[..]), b.bytes[..], FatOffset(g, 0), FatOffset(g, 1) + |fat|)
  {
    hide Part, FatOffset;
    b.PutField(FatOffset(g, 0), fat);
    b.PutField(FatOffset(g, 1), fat);
  }

  lemma FatOnVolume(img: seq<Byte>, g: Geometry, copy: nat, bytes: seq<Byte>, fat: seq<nat>)
    requires FatOffset(g, copy) + |bytes| <= |img| && Part(img, FatOffset(g, copy), FatOffset(g, copy) + |bytes|) == bytes
    requires 4 * |fat| <= |bytes| && forall c :: 0 <= c < |fat| ==> Number(bytes[4 * c..4 * c + 4]) == fat[c]
    ensures FatHolds(img, g, copy, fat)
  {
    hide FatOffset, Number;
    var at := FatOffset(g, copy);
    forall c | 0 <= c < |fat|
      ensures Number(img[at + 4 * c..at + 4 * c + 4]) == fat[c]
    {
      assert bytes[4 * c..4 * c + 4] == img[at + 4 * c..at + 4 * c + 4] by {
        PartOfPart(img, at, bytes, 4 * c, 4);
      }
    }
  }

  lemma PartOfPart(s: seq<Byte>, at: nat, p: seq<Byte>, x: nat, n: nat)
    requires at + |p| <= |s| && s[at..at + |p|] == p && x + n <= |p|
    ensures p[x..x + n] == s[at + x..at + x + n]
  {
    var left, right := p[x..x + n], s[at + x..at + x + n];
    forall k | 0 <= k < |left|
      ensures left[k] == right[k]
    {
      assert p[x + k] == s[at..at + |p|][x + k];
    }
  }

  datatype Refusal = BadClusterSize | BadLabel | TooSmall | DoesNotFit | FieldOverflow
  datatype Result = Built(image: seq<Byte>) | Refused(why: Refusal)

  function GeometryFor(sectors: nat, spc: nat): (g: Geometry)
    requires spc > 0
  {
    var size := FatSize(sectors, RESERVED, 2, spc);
    Geometry(spc, RESERVED, 2, if size >= 0 then size else 0, 2)
  }

  function Clusters(sectors: nat, spc: nat): int
    requires spc > 0
  {
    ClusterCount(sectors, RESERVED, 2, spc, FatSize(sectors, RESERVED, 2, spc))
  }

  /** The inputs the builder accepts: enough clusters for FAT32 and for the files with one to spare,
      and every number small enough for its field. */
  predicate Accepted(files: seq<File>, lba: nat, sectors: nat, spc: nat, volumeLabel: seq<Byte>) {
    && 1 <= spc < 0x100 && |volumeLabel| == 11
    && Clusters(sectors, spc) >= 65525
    && First(files, spc * SECTOR, |files|) <= Clusters(sectors, spc)
    && lba < 0x1_0000_0000 && sectors < 0x1_0000_0000
    && forall i :: 0 <= i < |files| ==> |files[i].payload| < 0x1_0000_0000
  }

  /** Entry c of this copy of the FAT is there, and zero exactly from `next` on. */
  predicate FreeFrom(img: seq<Byte>, g: Geometry, copy: nat, c: nat, next: nat) {
    FatOffset(g, copy) + 4 * c + 4 <= |img| && (FatEntry(img, g, copy, c) == 0 <==> next <= c)
  }

  /** The first three entries of this copy of the FAT: the media mark, the reserved entry, and the root
      directory's one cluster, its last. */
  predicate ReservedEntries(img: seq<Byte>, g: Geometry, copy: nat) {
    var at := FatOffset(g, copy);
    && at + 12 <= |img| && Number(img[at..at + 4]) == 0x0FFF_FFF8 && Number(img[at + 4..at + 8]) == 0xFFFF_FFFF
    && Number(img[at + 8..at + 12]) == 0x0FFF_FFFF
  }

  /** The volume describes itself truly: its size is the image's and holds all clusters, it starts where it
      was put, the backup boot sector is a copy, and the information sector and its copy give the number
      of free clusters and the first of them, which are exactly the entries that are zero in either FAT, and
      the entries before the files' are as the format wants them. */
  ghost predicate DescribesItself(img: seq<Byte>, g: Geometry, v: Volume, count: nat) {
    && |img| >= RESERVED * SECTOR && IsFat32(img) && Mount(img) == g && Describe(img) == v
    && v.total * SECTOR == |img| && FirstData(g) + count * g.spc <= v.total
    && v.infoSector == 1 && v.backupSector == 6 && Sector(img, v.backupSector) == Sector(img, 0)
    && Sector(img, v.backupSector + v.infoSector) == Sector(img, v.infoSector) && IsInfo(Sector(img, v.infoSector))
    && var free, next := Number(Sector(img, v.infoSector)[488..492]), Number(Sector(img, v.infoSector)[492..496]);
       && free == count + 2 - next && ReservedEntries(img, g, 0) && ReservedEntries(img, g, 1)
       && forall copy, c :: 0 <= copy < 2 && 2 <= c < count + 2 ==> FreeFrom(img, g, copy, c, next)
  }

  /** A reader finds exactly the files: the geometry, the listing, and by either FAT every file's
      clusters and contents. */
  ghost predicate ReadsBack(img: seq<Byte>, g: Geometry, files: seq<File>, count: nat)
    requires ClusterSize(g) > 0
  {
    && |img| >= SECTOR && Mount(img) == g
    && ListDirectory(ClusterData(img, g, g.root), []) == Listing(files, ClusterSize(g))
    && forall copy, i {:trigger ReadFile(img, g, copy, First(files, ClusterSize(g), i), |files[i].payload|, count)} ::
         0 <= copy < 2 && 0 <= i < |files| ==>
           && Chain(img, g, copy, First(files, ClusterSize(g), i), count)
              == Some(Consecutive(First(files, ClusterSize(g), i), FileClusters(files[i], ClusterSize(g))))
           && ReadFile(img, g, copy, First(files, ClusterSize(g), i), |files[i].payload|, count) == Some(files[i].payload)
  }

  lemma FileReadsBack(img: seq<Byte>, g: Geometry, files: seq<File>, count: nat, fat: seq<nat>, copy: nat, i: nat)
    requires g.spc >= 1 && i < |files| && FatHolds(img, g, copy, fat) && FatFor(fat, files, ClusterSize(g), count)
    requires First(files, ClusterSize(g), |files|) <= count && First(files, ClusterSize(g), |files|) <= END_OF_CHAIN
    requires ClusterOffset(g, count + 2) <= |img| && FileHolds(img, g, files[i], First(files, ClusterSize(g), i))
    ensures
      var first, n := First(files, ClusterSize(g), i), FileClusters(files[i], ClusterSize(g));
      && Chain(img, g, copy, first, count) == Some(Consecutive(first, n))
      && ReadFile(img, g, copy, first, |files[i].payload|, count) == Some(files[i].payload)
  {
    hide First, FileClusters, ClusterOffset, ClusterSize, FatHolds, Chain, Gather, Links;
    ClusterSizePositive(g);
    var first, n := First(files, ClusterSize(g), i), FileClusters(files[i], ClusterSize(g));
    FirstsGrow(files, ClusterSize(g), i, |files|);
    ChainConsecutive(img, g, copy, fat, first, n, count);
    FileSpan(files, g, i);
    OffsetsGrow(g, first + n, count + 2);
    GatherConsecutive(img, g, first, n);
    PartPrefix(img, ClusterOffset(g, first), ClusterOffset(g, first + n), |files[i].payload|);
  }

  lemma PartPrefix(s: seq<Byte>, a: nat, b: nat, n: nat)
    requires a + n <= b <= |s|
    ensures s[a..b][..n] == Part(s, a, a + n)
  {
  }

  lemma DirectoryReadsBack(img: seq<Byte>, g: Geometry, dir: seq<Byte>, listed: seq<Listed>)
    requires Prints(dir, listed) && |dir| < ClusterSize(g)
    requires 0 <= ClusterOffset(g, 2) && ClusterOffset(g, 2) + ClusterSize(g) <= |img|
    requires Part(img, ClusterOffset(g, 2), ClusterOffset(g, 2) + |dir| + 1) == dir + [0]
    ensures ListDirectory(ClusterData(img, g, 2), []) == listed
  {
    hide ClusterOffset, ClusterSize;
    var at := ClusterOffset(g, 2);
    var data := img[at..at + ClusterSize(g)];
    PartPrefix(img, at, at + ClusterSize(g), |dir| + 1);
    assert data[..|dir| + 1] == dir + [0];
    var rest := data[|dir|..];
    assert data == dir + rest;
    assert rest[0] == data[..|dir| + 1][|dir|];
    assert ListDirectory(dir + rest, []) == listed + ListDirectory(rest, []);
  }

  /** Fewer than sixteen files of less than 4 GiB stay clear of the end-of-chain values. */
  lemma {:induction false} FirstsSmall(files: seq<File>, clusterSize: int, i: nat)
    requires clusterSize >= SECTOR && i <= |files| && forall k :: 0 <= k < |files| ==> |files[k].payload| < 0x1_0000_0000
    ensures First(files, clusterSize, i) <= 3 + i * 0x80_0001
  {
    if i > 0 {
      FirstsSmall(files, clusterSize, i - 1);
      ClustersHold(files[i - 1], clusterSize);
      var n := FileClusters(files[i - 1], clusterSize);
      ProductMonotone(n - 1, SECTOR, clusterSize);
    }
  }

  /** The pieces on the volume are what a reader needs. */
  lemma Assembled(img: seq<Byte>, g: Geometry, files: seq<File>, count: nat, fat: seq<nat>, fatBytes: seq<Byte>, dir: seq<Byte>)
    requires g.spc >= 1 && g.reserved == RESERVED && g.numFats == 2 && g.root == 2
    requires |img| >= SECTOR && Mount(img) == g
    requires FatOffset(g, 0) + |fatBytes| <= |img| && FatOffset(g, 1) + |fatBytes| <= |img|
    requires Part(img, FatOffset(g, 0), FatOffset(g, 0) + |fatBytes|) == fatBytes
    requires Part(img, FatOffset(g, 1), FatOffset(g, 1) + |fatBytes|) == fatBytes
    requires 4 * |fat| <= |fatBytes| && forall c :: 0 <= c < |fat| ==> Number(fatBytes[4 * c..4 * c + 4]) == fat[c]
    requires FatFor(fat, files, ClusterSize(g), count)
    requires First(files, ClusterSize(g), |files|) <= count && First(files, ClusterSize(g), |files|) <= END_OF_CHAIN
    requires 0 <= ClusterOffset(g, 2) && ClusterOffset(g, 2) + ClusterSize(g) <= ClusterOffset(g, count + 2) <= |img|
    requires Prints(dir, Listing(files, ClusterSize(g))) && |dir| < SECTOR
    requires Part(img, ClusterOffset(g, 2), ClusterOffset(g, 2) + |dir| + 1) == dir + [0]
    requires forall i :: 0 <= i < |files| ==> FileHolds(img, g, files[i], First(files, ClusterSize(g), i))
    ensures ReadsBack(img, g, files, count)
  {
    hide First, FileClusters, ClusterOffset, ClusterSize, FatHolds, FatFor, FatOffset, Prints, FileHolds, Number, Chain, ReadFile, Mount, ListDirectory, ClusterData, Listing, Consecutive, Part;
    ClusterSizePositive(g);
    FatOnVolume(img, g, 0, fatBytes, fat);
    FatOnVolume(img, g, 1, fatBytes, fat);
    DirectoryReadsBack(img, g, dir, Listing(files, ClusterSize(g)));
    forall copy, i | 0 <= copy < 2 && 0 <= i < |files|
      ensures
        && Chain(img, g, copy, First(files, ClusterSize(g), i), count)
           == Some(Consecutive(First(files, ClusterSize(g), i), FileClusters(files[i], ClusterSize(g))))
        && ReadFile(img, g, copy, First(files, ClusterSize(g), i), |files[i].payload|, count) == Some(files[i].payload)
    {
      FileReadsBack(img, g, files, count, fat, copy, i);
    }
  }

  /** A boot sector read off the front of a volume is the one read alone. */
  lemma MountsAlike(img: seq<Byte>, boot: seq<Byte>)
    requires |img| >= SECTOR == |boot| && Part(img, 0, SECTOR) == boot
    ensures Mount(img) == Mount(boot) && Describe(img) == Describe(boot) && IsFat32(img) == IsFat32(boot)
  {
    hide Number;
    assert forall x :: 0 <= x < SECTOR ==> Part(img, 0, SECTOR)[x] == img[x];
    FieldAlike(img, boot, 11, 2);
    FieldAlike(img, boot, 14, 2);
    FieldAlike(img, boot, 17, 2);
    FieldAlike(img, boot, 19, 2);
    FieldAlike(img, boot, 22, 2);
    FieldAlike(img, boot, 28, 4);
    FieldAlike(img, boot, 32, 4);
    FieldAlike(img, boot, 36, 4);
    FieldAlike(img, boot, 42, 2);
    FieldAlike(img, boot, 44, 4);
    FieldAlike(img, boot, 48, 2);
    FieldAlike(img, boot, 50, 2);
    FieldAlike(img, boot, 71, 11);
    FieldAlike(img, boot, 82, 8);
  }

  lemma FieldAlike(img: seq<Byte>, boot: seq<Byte>, at: nat, n: nat)
    requires |img| >= |boot| >= at + n && forall x :: 0 <= x < |boot| ==> boot[x] == img[x]
    ensures img[at..at + n] == boot[at..at + n]
  {
  }

  /** Every cluster of the files is taken. */
  lemma {:induction false} UsedIsNotFree(fat: seq<nat>, files: seq<File>, clusterSize: int, n: nat, c: nat)
    requires clusterSize > 0 && n <= |files| && 3 <= c < First(files, clusterSize, n)
    requires forall i :: 0 <= i < |files| ==> Links(fat, First(files, clusterSize, i), FileClusters(files[i], clusterSize))
    ensures c < |fat| && (fat[c] == 0x0FFF_FFFF || fat[c] == c + 1)
  {
    hide FileClusters, First, Links;
    NoFiles(files, clusterSize);
    if n > 0 {
      NextFirst(files, clusterSize, n - 1);
      if c < First(files, clusterSize, n - 1) {
        UsedIsNotFree(fat, files, clusterSize, n - 1, c);
      } else {
        LinkedEntry(fat, First(files, clusterSize, n - 1), FileClusters(files[n - 1], clusterSize), c);
      }
    }
  }

  lemma LinkedEntry(fat: seq<nat>, first: nat, n: nat, c: nat)
    requires Links(fat, first, n) && first <= c < first + n
    ensures c < |fat| && (fat[c] == 0x0FFF_FFFF || fat[c] == c + 1)
  {
  }

  lemma EntryIsFreeExactlyWhen(img: seq<Byte>, g: Geometry, copy: nat, fat: seq<nat>, files: seq<File>, clusterSize: int, count: nat, c: nat)
    requires clusterSize > 0 && FatFor(fat, files, clusterSize, count) && FatHolds(img, g, copy, fat) && 2 <= c < count + 2
    requires First(files, clusterSize, |files|) <= count && First(files, clusterSize, |files|) <= END_OF_CHAIN
    ensures FatOffset(g, copy) + 4 * c + 4 <= |img|
    ensures FatEntry(img, g, copy, c) == 0 <==> First(files, clusterSize, |files|) <= c
  {
    hide First, FileClusters, FatOffset, Number, Links;
    var next := First(files, clusterSize, |files|);
    if 3 <= c < next {
      UsedIsNotFree(fat, files, clusterSize, |files|, c);
    }
    assert Number(img[FatOffset(g, copy) + 4 * c..FatOffset(g, copy) + 4 * c + 4]) == fat[c];
    NoFiles(files, clusterSize);
  }

  lemma ReservedOnVolume(img: seq<Byte>, g: Geometry, copy: nat, fat: seq<nat>, files: seq<File>, clusterSize: int, count: nat)
    requires clusterSize > 0 && FatFor(fat, files, clusterSize, count) && FatHolds(img, g, copy, fat)
    ensures ReservedEntries(img, g, copy)
  {
    hide FatOffset, Number, First, FileClusters, Links;
    var at := FatOffset(g, copy);
    assert Number(img[at + 4 * 0..at + 4 * 0 + 4]) == fat[0];
    assert Number(img[at + 4 * 1..at + 4 * 1 + 4]) == fat[1];
    assert Number(img[at + 4 * 2..at + 4 * 2 + 4]) == fat[2];
  }

  lemma DirectorySizeBounds(files: seq<File>)
    ensures 32 * |files| <= DirectorySize(files)
  {
    if files != [] {
      DirectoryGrows(files, 0);
    }
  }

  /** Behind the reserved sectors there is room for both FATs and all clusters. */
  predicate HasRoom(g: Geometry, count: nat, sectors: nat) { 2 * g.fatSectors + count * g.spc <= sectors - RESERVED }

  lemma CountBelow(g: Geometry, count: nat, sectors: nat)
    requires g.spc >= 1 && HasRoom(g, count, sectors)
    ensures count <= sectors - RESERVED && g.fatSectors <= sectors
  {
    ProductMonotone(count, 1, g.spc);
  }

  lemma FirstsBelow(files: seq<File>, clusterSize: int, firsts: seq<nat>)
    requires clusterSize > 0 && |firsts| == |files| && forall i :: 0 <= i < |files| ==> firsts[i] == First(files, clusterSize, i)
    ensures forall i :: 0 <= i < |files| ==> firsts[i] <= First(files, clusterSize, |files|)
  {
    forall i | 0 <= i < |files|
      ensures firsts[i] <= First(files, clusterSize, |files|)
    {
      FirstsGrow(files, clusterSize, i, |files|);
    }
  }

  lemma TableLength(fat: seq<nat>, files: seq<File>, clusterSize: int, count: nat)
    requires clusterSize > 0 && FatFor(fat, files, clusterSize, count)
    ensures |fat| == count + 2
  {
  }

  lemma BootLength(boot: seq<Byte>, g: Geometry, v: Volume)
    requires BootSectorFor(boot, g, v)
    ensures |boot| == SECTOR
  {
  }

  lemma InfoLength(info: seq<Byte>)
    requires IsInfo(info)
    ensures |info| == SECTOR
  {
  }

  lemma HeaderReads(img: seq<Byte>, boot: seq<Byte>, info: seq<Byte>, g: Geometry, v: Volume)
    requires |img| >= RESERVED * SECTOR && HeaderHolds(img, boot, info) && BootSectorFor(boot, g, v)
    ensures Mount(img) == g && Describe(img) == v && IsFat32(img)
    ensures Sector(img, 0) == boot == Sector(img, 6) && Sector(img, 1) == info == Sector(img, 7)
  {
    hide Mount, Describe, IsFat32;
    MountsAlike(img, boot);
  }

  lemma Described(img: seq<Byte>, g: Geometry, v: Volume, files: seq<File>, count: nat, fat: seq<nat>, fatBytes: seq<Byte>, boot: seq<Byte>, info: seq<Byte>)
    requires g.spc >= 1 && |img| >= RESERVED * SECTOR && IsFat32(img) && Mount(img) == g && Describe(img) == v
    requires v.total * SECTOR == |img| && v.infoSector == 1 && v.backupSector == 6
    requires g.reserved == RESERVED && g.numFats == 2 && 2 * g.fatSectors + count * g.spc <= v.total - RESERVED
    requires Sector(img, 0) == boot == Sector(img, 6) && Sector(img, 1) == info == Sector(img, 7) && IsInfo(info)
    requires Number(info[488..492]) == count + 2 - First(files, ClusterSize(g), |files|)
    requires Number(info[492..496]) == First(files, ClusterSize(g), |files|)
    requires FatOffset(g, 0) + |fatBytes| <= |img| && FatOffset(g, 1) + |fatBytes| <= |img|
    requires Part(img, FatOffset(g, 0), FatOffset(g, 0) + |fatBytes|) == fatBytes
    requires Part(img, FatOffset(g, 1), FatOffset(g, 1) + |fatBytes|) == fatBytes
    requires 4 * |fat| <= |fatBytes| && forall c :: 0 <= c < |fat| ==> Number(fatBytes[4 * c..4 * c + 4]) == fat[c]
    requires FatFor(fat, files, ClusterSize(g), count)
    requires First(files, ClusterSize(g), |files|) <= count && First(files, ClusterSize(g), |files|) <= END_OF_CHAIN
    ensures DescribesItself(img, g, v, count)
  {
    hide First, FileClusters, FatOffset, ClusterSize, FatFor, FatHolds, IsFat32, Mount, Describe, IsInfo, Number, Part, FatEntry, ReservedEntries;
    ClusterSizePositive(g);
    FatOnVolume(img, g, 0, fatBytes, fat);
    FatOnVolume(img, g, 1, fatBytes, fat);
    ReservedOnVolume(img, g, 0, fat, files, ClusterSize(g), count);
    ReservedOnVolume(img, g, 1, fat, files, ClusterSize(g), count);
    ghost var next := First(files, ClusterSize(g), |files|);
    forall copy, c | 0 <= copy < 2 && 2 <= c < count + 2
      ensures FreeFrom(img, g, copy, c, next)
    {
      EntryIsFreeExactlyWhen(img, g, copy, fat, files, ClusterSize(g), count, c);
    }
    assert g.numFats * g.fatSectors == 2 * g.fatSectors;
    assert Sector(img, v.infoSector) == info;
  }

  /** Writing the directory and the files leaves the boot sector and the FATs; writing the files leaves
      the directory. */
  lemma KeptParts(before: seq<Byte>, listed: seq<Byte>, image: seq<Byte>, g: Geometry, boot: seq<Byte>, info: seq<Byte>, fat: seq<Byte>, dir: seq<Byte>)
    requires |before| == |listed| == |image|
    requires RESERVED * SECTOR <= FatOffset(g, 0) && FatOffset(g, 0) + |fat| == FatOffset(g, 1)
    requires FatOffset(g, 1) + |fat| <= ClusterOffset(g, 2)
    requires ClusterOffset(g, 2) + |dir| + 1 <= ClusterOffset(g, 3) <= |image|
    requires HeaderHolds(before, boot, info)
    requires Part(before, FatOffset(g, 0), FatOffset(g, 0) + |fat|) == fat && Part(before, FatOffset(g, 1), FatOffset(g, 1) + |fat|) == fat
    requires SameOutside(before, listed, ClusterOffset(g, 2), ClusterOffset(g, 2) + |dir| + 1)
    requires Part(listed, ClusterOffset(g, 2), ClusterOffset(g, 2) + |dir| + 1) == dir + [0]
    requires SameOutside(listed, image, ClusterOffset(g, 3), |image|)
    ensures HeaderHolds(image, boot, info)
    ensures Part(image, FatOffset(g, 0), FatOffset(g, 0) + |fat|) == fat && Part(image, FatOffset(g, 1), FatOffset(g, 1) + |fat|) == fat
    ensures Part(image, ClusterOffset(g, 2), ClusterOffset(g, 2) + |dir| + 1) == dir + [0]
  {
    hide Part, FatOffset, ClusterOffset;
  }

  /** Writes the regions of the volume from front to back. */
  method WriteVolume(files: seq<File>, sectors: nat, g: Geometry, count: nat, firsts: seq<nat>,
                     fat: array<nat>, fatBytes: seq<Byte>, boot: seq<Byte>, info: seq<Byte>, ghost v: Volume) returns (image: seq<Byte>)
    requires forall f :: f in files ==> Nameable(f) && |f.payload| < 0x1_0000_0000
    requires DirectorySize(files) < SECTOR && g.spc >= 1 && g.reserved == RESERVED && g.numFats == 2 && g.root == 2
    requires |fatBytes| == g.fatSectors * SECTOR && |boot| == SECTOR == |info| && BootSectorFor(boot, g, v)
    requires v.total == sectors && v.infoSector == 1 && v.backupSector == 6 && IsInfo(info)
    requires Number(info[488..492]) == count + 2 - First(files, ClusterSize(g), |files|)
    requires Number(info[492..496]) == First(files, ClusterSize(g), |files|)
    requires HasRoom(g, count, sectors)
    requires FatFor(fat[..], files, ClusterSize(g), count) && fat.Length == count + 2
    requires 4 * fat.Length <= |fatBytes| && forall c :: 0 <= c < fat.Length ==> Number(fatBytes[4 * c..4 * c + 4]) == fat[..][c]
    requires |firsts| == |files| && forall i :: 0 <= i < |files| ==> firsts[i] == First(files, ClusterSize(g), i) < 0x1_0000_0000
    requires 3 <= First(files, ClusterSize(g), |files|) <= count && First(files, ClusterSize(g), |files|) <= END_OF_CHAIN
    ensures |image| == sectors * SECTOR && ReadsBack(image, g, files, count) && DescribesItself(image, g, v, count)
  {
    hide First, FileClusters, ClusterOffset, FatFor, FatOffset, Prints, FileHolds, Number, Splice, SameOutside, Part, BootSectorFor, ReadsBack, Nameable, ClusterSize, DirectorySize, Listing, HeaderHolds, DescribesItself, IsInfo;
    ClusterSizePositive(g);
    Regions(g, count, sectors);
    OffsetsGrow(g, 3, First(files, ClusterSize(g), |files|));
    OffsetsGrow(g, First(files, ClusterSize(g), |files|), count + 2);
    ghost var table := fat[..];
    var b := new Buffer(sectors * SECTOR);
    WriteHeader(b, boot, info);
    ghost var headed := b.bytes[..];
    WriteFats(b, g, fatBytes);
    ghost var before := b.bytes[..];
    HeaderKept(headed, before, FatOffset(g, 0), FatOffset(g, 1) + |fatBytes|, boot, info);
    ghost var dir := WriteDirectory(b, ClusterOffset(g, 2), files, ClusterSize(g), firsts);
    ghost var listed := b.bytes[..];
    DirectoryWritten(before, ClusterOffset(g, 2), dir);
    var ended := WriteFiles(b, g, fat, files, firsts, count);
    image := b.bytes[..];
    KeptParts(before, listed, image, g, boot, info, fatBytes, dir);
    HeaderReads(image, boot, info, g, v);
    Described(image, g, v, files, count, table, fatBytes, boot, info);
    Assembled(image, g, files, count, table, fatBytes, dir);
  }

  lemma DirectoryWritten(before: seq<Byte>, root: nat, dir: seq<Byte>)
    requires root + |dir| + 1 <= |before|
    ensures Part(Splice(before, root, dir + [0]), root, root + |dir| + 1) == dir + [0]
    ensures SameOutside(before, Splice(before, root, dir + [0]), root, root + |dir| + 1)
  {
    SpliceHolds(before, root, dir + [0]);
    OnlySpliced(before, root, dir + [0]);
  }

  /** The tables and sectors of the volume, for inputs already accepted. */
  method BuildVolume(files: seq<File>, lba: nat, sectors: nat, g: Geometry, count: nat, volumeLabel: seq<Byte>,
                     firsts: seq<nat>, clusters: seq<nat>, next: nat) returns (image: seq<Byte>)
    requires forall f :: f in files ==> Nameable(f)
    requires DirectorySize(files) < SECTOR && g.spc >= 1
    requires g.spc < 0x100 && g.reserved == RESERVED && g.numFats == 2 && g.root == 2 && |volumeLabel| == 11
    requires lba < 0x1_0000_0000 && sectors < 0x1_0000_0000 && forall i :: 0 <= i < |files| ==> |files[i].payload| < 0x1_0000_0000
    requires 4 * (count + 2) <= g.fatSectors * SECTOR && HasRoom(g, count, sectors)
    requires |firsts| == |clusters| == |files| && 3 <= next == First(files, ClusterSize(g), |files|) <= count
    requires forall i :: 0 <= i < |files| ==>
               firsts[i] == First(files, ClusterSize(g), i) && clusters[i] == FileClusters(files[i], ClusterSize(g))
    ensures |image| == sectors * SECTOR && ReadsBack(image, g, files, count)
    ensures DescribesItself(image, g, Volume(sectors, lba, 1, 6, volumeLabel), count)
  {
    hide First, FileClusters, ClusterOffset, FatFor, FatOffset, Number, Part, BootSectorFor, ReadsBack, Nameable, ClusterSize, DirectorySize, DescribesItself, IsInfo, HasRoom;
    ClusterSizePositive(g);
    FirstsSmall(files, ClusterSize(g), |files|);
    DirectorySizeBounds(files);
    CountBelow(g, count, sectors);
    FirstsBelow(files, ClusterSize(g), firsts);
    var fat := FillFat(files, ClusterSize(g), firsts, clusters, count);
    TableLength(fat[..], files, ClusterSize(g), count);
    var fatBytes := SerializeFat(fat[..], g.fatSectors * SECTOR);
    ghost var v := Volume(sectors, lba, 1, 6, volumeLabel);
    var boot := BuildBootSector(g, lba, sectors, volumeLabel);
    BootLength(boot, g, v);
    var info := BuildInfoSector(count - (next - 2), next);
    InfoLength(info);
    image := WriteVolume(files, sectors, g, count, firsts, fat, fatBytes, boot, info, v);
  }

  /** The builder: it accepts exactly the inputs that fit, and the volume it builds reads back as the
      files it was given. */
  method Build(files: seq<File>, lba: nat, sectors: nat, spc: nat, volumeLabel: seq<Byte>) returns (r: Result)
    requires (forall f :: f in files ==> Nameable(f)) && DirectorySize(files) < SECTOR
    ensures r.Built? <==> Accepted(files, lba, sectors, spc, volumeLabel)
    ensures r.Built? ==> |r.image| == sectors * SECTOR && ReadsBack(r.image, GeometryFor(sectors, spc), files, Clusters(sectors, spc))
    ensures r.Built? ==>
      DescribesItself(r.image, GeometryFor(sectors, spc), Volume(sectors, lba, 1, 6, volumeLabel), Clusters(sectors, spc))
  {
    hide First, FileClusters, Nameable, ReadsBack, DescribesItself, FatSize, ClusterCount;
    if spc < 1 {
      return Refused(BadClusterSize);
    }
    if |volumeLabel| != 11 {
      return Refused(BadLabel);
    }
    var fatSectors, count := FatSizeSectors(sectors, RESERVED, 2, spc);
    if count < 65525 {
      return Refused(TooSmall);
    }
    var firsts, clusters, next := PlanFiles(files, spc * SECTOR);
    var used := 1 + (next - 3);
    if used + 2 > count {
      return Refused(DoesNotFit);
    }
    if spc >= 0x100 || lba >= 0x1_0000_0000 || sectors >= 0x1_0000_0000
       || exists i :: 0 <= i < |files| && |files[i].payload| >= 0x1_0000_0000 {
      return Refused(FieldOverflow);
    }
    var g := Geometry(spc, RESERVED, 2, fatSectors, 2);
    var image := BuildVolume(files, lba, sectors, g, count, volumeLabel, firsts, clusters, next);
    r := Built(image);
  }

  /** No cluster belongs to two files, the files' clusters come after the root directory's, and all of
      them are clusters of the volume. */
  lemma ChainsAreDisjoint(files: seq<File>, lba: nat, sectors: nat, spc: nat, volumeLabel: seq<Byte>, i: nat, j: nat)
    requires Accepted(files, lba, sectors, spc, volumeLabel) && i < j < |files|
    ensures
      var a, b := First(files, spc * SECTOR, i), First(files, spc * SECTOR, j);
      var m, n := FileClusters(files[i], spc * SECTOR), FileClusters(files[j], spc * SECTOR);
      && (forall c :: c in Consecutive(a, m) ==> 3 <= c && c !in Consecutive(b, n))
      && forall c :: c in Consecutive(b, n) ==> 3 <= c < Clusters(sectors, spc) + 2
  {
    hide First, FileClusters, Clusters;
    FirstsGrow(files, spc * SECTOR, i, j);
    FirstsGrow(files, spc * SECTOR, j, |files|);
  }
}
