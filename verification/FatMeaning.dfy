/** The reader's side of a FAT32 volume byte by byte, after sections 3, 4, 6 and 7 of the Microsoft FAT
    Specification: where each number stands and what the pieces of a long name look like. */
module FatMeaning {
  import opened Words
  import opened Bits
  import opened LongNames
  import opened FatVolume
  import opened FatBuilder

  /** Little-endian numbers of two and four bytes. */
  function Two(s: seq<Byte>, at: nat): nat
    requires at + 2 <= |s|
  {
    s[at] as int + 0x100 * s[at + 1] as int
  }

  function Four(s: seq<Byte>, at: nat): nat
    requires at + 4 <= |s|
  {
    s[at] as int + 0x100 * s[at + 1] as int + 0x1_0000 * s[at + 2] as int + 0x100_0000 * s[at + 3] as int
  }

  lemma NumbersInBytes(s: seq<Byte>, at: nat)
    ensures at + 2 <= |s| ==> Number(s[at..at + 2]) == Two(s, at)
    ensures at + 4 <= |s| ==> Number(s[at..at + 4]) == Four(s, at)
  {
    if at + 2 <= |s| {
      NumberOfTwo(s[at..at + 2]);
    }
    if at + 4 <= |s| {
      var t := s[at..at + 4];
      assert Number(t) == t[0] as int + 0x100 * Number(t[1..]);
      assert Number(t[1..]) == t[1] as int + 0x100 * Number(t[1..][1..]);
      assert t[1..][1..] == [t[2], t[3]];
      NumberOfTwo(t[1..][1..]);
    }
  }

  lemma NumberOfTwo(t: seq<Byte>)
    requires |t| == 2
    ensures Number(t) == t[0] as int + 0x100 * t[1] as int
  {
    assert Number(t[1..]) == t[1] as int + 0x100 * Number([]);
  }

  /** The boot sector of a built volume, number by number. */
  lemma BootSectorInBytes(img: seq<Byte>, sectors: nat, lba: nat, spc: nat, volumeLabel: seq<Byte>, g: Geometry, v: Volume, count: int)
    requires spc > 0 && g == GeometryFor(sectors, spc) && v == Volume(sectors, lba, 1, 6, volumeLabel) && count == Clusters(sectors, spc)
    requires count >= 0 && DescribesItself(img, g, v, count)
    ensures |img| == 512 * sectors && sectors >= 32
    ensures Two(img, 11) == 512 && img[13] as int == spc && Two(img, 14) == 32 && img[16] == 2
    ensures Two(img, 17) == 0 && Two(img, 22) == 0 && Two(img, 42) == 0
    ensures Four(img, 28) == lba && (Two(img, 19) == 0 ==> Four(img, 32) == sectors)
    ensures Four(img, 44) == 2 && Two(img, 48) == 1 && Two(img, 50) == 6
    ensures img[66] == 0x29 && img[71..82] == volumeLabel && img[510] == 0x55 && img[511] == 0xAA
    ensures 32 + 2 * Four(img, 36) + count * spc <= sectors
    ensures img[6 * 512..7 * 512] == img[..512] && img[7 * 512..8 * 512] == img[512..2 * 512]
    ensures Four(img, 512 + 488) == count + 2 - Four(img, 512 + 492)
  {
    hide Clusters, GeometryFor, FreeFrom, IsInfo, Mount, Describe, IsFat32, Two, Four;
    ReaderInBytes(img);
    GeometryInNumbers(sectors, spc);
    InfoNumber(img, 488);
    InfoNumber(img, 492);
    assert Sector(img, 6) == Sector(img, 0) && Sector(img, 7) == Sector(img, 1);
    assert Sector(img, 0) == img[..512] && Sector(img, 1) == img[512..2 * 512];
  }

  lemma GeometryInNumbers(sectors: nat, spc: nat)
    requires spc > 0
    ensures
      var g := GeometryFor(sectors, spc);
      g.spc == spc && g.reserved == 32 && g.numFats == 2 && g.root == 2
    ensures FirstData(GeometryFor(sectors, spc)) == 32 + 2 * GeometryFor(sectors, spc).fatSectors
  {
  }

  /** What the reader takes from a boot sector, and where from. */
  lemma ReaderInBytes(img: seq<Byte>)
    requires |img| >= 512
    ensures Mount(img) == Geometry(img[13], Two(img, 14), img[16], Four(img, 36), Four(img, 44))
    ensures Describe(img) == Volume(if Two(img, 19) != 0 then Two(img, 19) else Four(img, 32), Four(img, 28), Two(img, 48), Two(img, 50), img[71..82])
    ensures IsFat32(img) ==>
      Two(img, 11) == 512 && Two(img, 17) == 0 && Two(img, 22) == 0 && Two(img, 42) == 0 && img[66] == 0x29 && img[510] == 0x55 && img[511] == 0xAA
  {
    hide Number, Two, Four;
    NumbersInBytes(img, 11);
    NumbersInBytes(img, 14);
    NumbersInBytes(img, 17);
    NumbersInBytes(img, 19);
    NumbersInBytes(img, 22);
    NumbersInBytes(img, 28);
    NumbersInBytes(img, 32);
    NumbersInBytes(img, 36);
    NumbersInBytes(img, 42);
    NumbersInBytes(img, 44);
    NumbersInBytes(img, 48);
    NumbersInBytes(img, 50);
  }

  lemma InfoNumber(img: seq<Byte>, at: nat)
    requires |img| >= 2 * 512 && at + 4 <= 512
    ensures Number(Sector(img, 1)[at..at + 4]) == Four(img, 512 + at)
  {
    hide Number;
    assert Sector(img, 1)[at..at + 4] == img[512 + at..512 + at + 4] by {
      SliceAt(img, 512, 512, at, 4);
    }
    NumbersInBytes(img, 512 + at);
  }

  lemma SliceAt(s: seq<Byte>, base: nat, length: nat, x: nat, n: nat)
    requires base + length <= |s| && x + n <= length
    ensures s[base..base + length][x..x + n] == s[base + x..base + x + n]
  {
    var left, right := s[base..base + length][x..x + n], s[base + x..base + x + n];
    forall k | 0 <= k < |left|
      ensures left[k] == right[k]
    {
      assert s[base..base + length][x + k] == s[base + (x + k)];
    }
  }

  /** A short directory entry: name, attributes, first cluster in two halves, size. */
  lemma EntryInBytes(e: DirectoryEntry, pending: seq<DirectoryEntry>)
    ensures
      var l := ListedFrom(e, pending);
      l.shortName == e[0..11] && l.attributes == e[11] && l.first == Two(e, 26) + 0x1_0000 * Two(e, 20) && l.size == Four(e, 28)
  {
    hide Decode;
    NumbersInBytes(e, 26);
    NumbersInBytes(e, 20);
    NumbersInBytes(e, 28);
  }

  /** The entry of cluster c in FAT number `copy`, and the place of cluster c, of a volume with 32 reserved
      sectors and two FATs. */
  lemma PlacesInNumbers(img: seq<Byte>, g: Geometry, copy: nat, c: nat)
    requires g.reserved == 32 && g.numFats == 2 && copy < 2 && c >= 2
    ensures FatOffset(g, copy) == 512 * (32 + if copy == 0 then 0 else g.fatSectors)
    ensures ClusterOffset(g, c) == 512 * (32 + 2 * g.fatSectors + (c - 2) * g.spc)
    ensures FatOffset(g, copy) + 4 * c + 4 <= |img| ==>
      FatEntry(img, g, copy, c) == Four(img, FatOffset(g, copy) + 4 * c) % 0x1000_0000
  {
    NumbersInBytes(img, FatOffset(g, copy) + 4 * c);
  }

  /** A reader follows the FAT from cluster c until an entry of 0x0FFFFFF8 or more. */
  lemma ChainEndsExactlyWhen(img: seq<Byte>, g: Geometry, copy: nat, c: nat, fuel: nat)
    requires Chain(img, g, copy, c, fuel).Some?
    ensures
      var at, chain := FatOffset(g, copy) + 4 * c, Chain(img, g, copy, c, fuel).value;
      && at + 4 <= |img| && chain != [] && chain[0] == c
      && var next := Four(img, at) % 0x1000_0000;
         if next >= 0x0FFF_FFF8 then chain == [c] else |chain| >= 2 && chain[1] == next
  {
    hide FatOffset, Number, Four;
    NumbersInBytes(img, FatOffset(g, copy) + 4 * c);
    var next := FatEntry(img, g, copy, c);
    if next < 0x0FFF_FFF8 {
      var rest := Chain(img, g, copy, next, fuel - 1).value;
      assert rest != [] && rest[0] == next;
    }
  }

  /** A file's first cluster and number of clusters: files follow one another from cluster 3 on, each in as
      few clusters as hold it, but at least one. */
  lemma ClustersInNumbers(files: seq<File>, size: int, i: nat)
    requires size > 0 && i < |files|
    ensures First(files, size, i) == if i == 0 then 3 else First(files, size, i - 1) + FileClusters(files[i - 1], size)
    ensures
      var n, p := FileClusters(files[i], size), |files[i].payload|;
      p <= n * size && (n == 1 || (n - 1) * size < p)
  {
    var n, p, q := FileClusters(files[i], size), |files[i].payload|, CeilDiv(|files[i].payload|, size);
    ClustersHold(files[i], size);
    assert p + size - 1 == q * size + (p + size - 1) % size;
    assert (q - 1) * size == q * size - size;
  }

  /** The FAT is as small as the loop's first guess of one sector allows: one sector, or just enough for the
      clusters there would be with FATs of one sector. */
  lemma FatSizeInNumbers(total: int, reserved: int, numFats: nat, spc: int)
    requires spc > 0
    ensures
      var fat, data := FatSize(total, reserved, numFats, spc), total - reserved - numFats;
      var clusters := ClusterCount(total, reserved, numFats, spc, fat);
      && (fat == 1 || exists c: int :: c * spc <= data < (c + 1) * spc && 4 * (c + 2) <= 512 * fat < 4 * (c + 2) + 512)
      && clusters * spc <= total - reserved - numFats * fat < (clusters + 1) * spc
  {
    var c := ClusterCount(total, reserved, numFats, spc, 1);
    Quotient(total - reserved - numFats, spc);
    Quotient(total - reserved - numFats * FatSize(total, reserved, numFats, spc), spc);
    assert c * spc <= total - reserved - numFats < (c + 1) * spc;
  }

  lemma Quotient(n: int, d: int)
    requires d > 0
    ensures n / d * d <= n < (n / d + 1) * d
  {
    assert n == n / d * d + n % d;
    assert (n / d + 1) * d == n / d * d + d;
  }

  /** The inputs accepted: clusters of 1 to 255 sectors, a label of eleven bytes, at least 65525 clusters, the
      clusters of the root directory and the files and two more among them, and numbers that fit their fields. */
  lemma AcceptedInNumbers(files: seq<File>, lba: nat, sectors: nat, spc: nat, volumeLabel: seq<Byte>)
    ensures
      Accepted(files, lba, sectors, spc, volumeLabel) <==>
        && 1 <= spc <= 255 && |volumeLabel| == 11 && lba <= 0xFFFF_FFFF && sectors <= 0xFFFF_FFFF
        && (forall f :: f in files ==> |f.payload| <= 0xFFFF_FFFF)
        && Clusters(sectors, spc) >= 65525 && 1 + Taken(files, 512 * spc) + 2 <= Clusters(sectors, spc)
  {
    hide Clusters, First, FileClusters, Taken;
    if spc >= 1 {
      TakenIsRange(files, 512 * spc, |files|);
      assert files[..|files|] == files;
    }
  }

  /** The clusters that some files take. */
  function Taken(files: seq<File>, size: int): nat {
    if files == [] || size <= 0 then 0 else Taken(files[..|files| - 1], size) + FileClusters(files[|files| - 1], size)
  }

  lemma {:induction false} TakenIsRange(files: seq<File>, size: int, n: nat)
    requires size > 0 && n <= |files|
    ensures First(files, size, n) == 3 + Taken(files[..n], size)
  {
    if n > 0 {
      TakenIsRange(files, size, n - 1);
      assert files[..n][..n - 1] == files[..n - 1];
    }
  }

  /** The number of clusters: as many as fit behind 32 reserved sectors and two FATs. */
  lemma ClustersFit(sectors: nat, spc: nat)
    requires spc > 0
    ensures
      var room := sectors - 32 - 2 * GeometryFor(sectors, spc).fatSectors;
      Clusters(sectors, spc) * spc <= room < (Clusters(sectors, spc) + 1) * spc
  {
    Quotient(sectors - 32 - 2 * GeometryFor(sectors, spc).fatSectors, spc);
  }

  // ---------------------------------------------------------------- long names

  /** The thirteen units of an entry: five from byte 1, six from byte 14, two from byte 28. */
  lemma UnitsInBytes(e: DirectoryEntry, j: nat)
    requires j < 13
    ensures Units(e)[j] as int == if j < 5 then Two(e, 1 + 2 * j) else if j < 11 then Two(e, 14 + 2 * (j - 5)) else Two(e, 28 + 2 * (j - 11))
  {
  }

  /** The units of a name in its parts: the name, a NUL, and 0xFFFF up to a multiple of thirteen. */
  lemma PaddedInUnits(name: seq<Half>)
    ensures
      var u := Padded(name);
      && |u| % 13 == 0 && |name| < |u| <= |name| + 13 && u[..|name|] == name && u[|name|] == 0
      && forall j :: |name| < j < |u| ==> u[j] == 0xFFFF
  {
  }

  /** Entry k of a long name of n parts: part n - k with its number, the first one stored marked 0x40. */
  lemma LongEntryInBytes(entries: seq<DirectoryEntry>, name: seq<Half>, shortName: seq<Byte>, k: nat, j: nat)
    requires EntriesFor(entries, name, shortName) && k < |entries| < 0x40 && j < 13
    ensures
      var e, n := entries[k], |entries|;
      && n == |Padded(name)| / 13
      && e[0] as int == n - k + (if k == 0 then 0x40 else 0) && e[11] == 0x0F && e[12] == 0 && e[13] == Checksum(shortName)
      && Units(e)[j] == Padded(name)[13 * (n - 1 - k) + j]
  {
    hide Padded, Units, Checksum;
    assert EntryFor(entries[k], k, name, Checksum(shortName));
  }

  /** A reader takes entries for a long name exactly when they are 1 to 63 and each has its number, the mark
      0x40 on the first, the attribute 0x0F, type 0 and the checksum of the short name. */
  lemma DecodedExactlyWhen(entries: seq<DirectoryEntry>, shortName: seq<Byte>)
    ensures
      Decode(entries, shortName).Some? <==>
        1 <= |entries| <= 63 &&
        forall k :: 0 <= k < |entries| ==>
          && entries[k][0] as int == |entries| - k + (if k == 0 then 0x40 else 0)
          && entries[k][11] == 0x0F && entries[k][12] == 0 && entries[k][13] == Checksum(shortName)
  {
    hide Checksum, Assemble;
  }

  /** The checksum of a short name: each byte is added to the sum so far rotated right by one bit. */
  lemma ChecksumRotates(shortName: seq<Byte>, b: Byte) returns (rotated: Byte)
    ensures Checksum([]) == 0
    ensures forall k :: 0 <= k < 8 ==> (Bit(rotated, k) <==> Bit(Checksum(shortName), if k == 7 then 0 else k + 1))
    ensures Checksum(shortName + [b]) as int == (rotated as int + b as int) % 0x100
  {
    var c := Checksum(shortName);
    rotated := c % 2 * 0x80 + c / 2;
    assert (shortName + [b])[..|shortName|] == shortName;
    forall k | 0 <= k < 8
      ensures Bit(rotated, k) <==> Bit(c, if k == 7 then 0 else k + 1)
    {
      RotatedBit(c, k);
    }
  }

  lemma RotatedBit(c: Byte, k: nat)
    requires k < 8
    ensures Bit(c as int % 2 * 0x80 + c as int / 2, k) <==> Bit(c, if k == 7 then 0 else k + 1)
  {
    hide Bit, Pow2;
    MaskOfSeven();
    BitOfParts(c as int % 2, c as int / 2, 7, k);
    if k == 7 {
      LowBit(c as int);
    } else {
      BitShift(c, k + 1);
    }
  }

  lemma MaskOfSeven()
    ensures Pow2(7) == 0x80
  {
    assert Pow2(2) == 4;
    Pow2Split(2, 2);
    Pow2Split(4, 3);
  }

  lemma LowBit(c: nat)
    ensures Bit(c % 2, 0) <==> Bit(c, 0)
  {
    BitZero(c);
    BitZero(c % 2);
  }
}
