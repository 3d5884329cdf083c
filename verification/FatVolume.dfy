/** The FAT32 boot partition builder (hdl/little64_cores/litex_linux_boot.py), and a reader of such
    volumes after sections 3, 4 and 6 of the Microsoft FAT Specification. */
module FatVolume {
  import opened Words
  import opened LongNames

  const SECTOR := 512
  const RESERVED := 32
  const END_OF_CHAIN := 0x0FFF_FFF8

  // ---------------------------------------------------------------- sizing

  function CeilDiv(n: int, d: int): int
    requires d > 0
  {
    (n + d - 1) / d
  }

  function ClusterCount(total: int, reserved: int, numFats: int, spc: int, fat: int): int
    requires spc > 0
  {
    (total - reserved - numFats * fat) / spc
  }

  /** The sectors a FAT needs for the clusters left over by FATs of this size. */
  function Required(total: int, reserved: int, numFats: int, spc: int, fat: int): int
    requires spc > 0
  {
    CeilDiv((ClusterCount(total, reserved, numFats, spc, fat) + 2) * 4, SECTOR)
  }

  lemma DivMonotone(a: int, b: int, d: int)
    requires d > 0 && a <= b
    ensures a / d <= b / d
  {
    var q, r := a / d, b / d;
    assert a - b == (q - r) * d + a % d - b % d;
    MultipleIsFar(q - r, d);
  }

  /** Larger FATs leave fewer clusters to describe. */
  lemma RequiredFalls(total: int, reserved: int, numFats: nat, spc: int, fat: int, fat': int)
    requires spc > 0 && fat <= fat'
    ensures Required(total, reserved, numFats, spc, fat') <= Required(total, reserved, numFats, spc, fat)
  {
    assert numFats * fat <= numFats * fat' by {
      ProductMonotone(numFats, fat, fat');
    }
    DivMonotone(total - reserved - numFats * fat', total - reserved - numFats * fat, spc);
    var c, c' := ClusterCount(total, reserved, numFats, spc, fat), ClusterCount(total, reserved, numFats, spc, fat');
    assert c' <= c;
    DivMonotone((c' + 2) * 4 + SECTOR - 1, (c + 2) * 4 + SECTOR - 1, SECTOR);
  }

  lemma ProductMonotone(n: nat, a: int, b: int)
    requires a <= b
    ensures n * a <= n * b
  {
    assert n * b - n * a == n * (b - a);
    ProductNonNegative(n, b - a);
  }

  /** The size the loop ends with: the first guess or the second. */
  function FatSize(total: int, reserved: int, numFats: int, spc: int): int
    requires spc > 0
  {
    var required := Required(total, reserved, numFats, spc, 1);
    if required <= 1 then 1 else required
  }

  /** The sizing loop goes round at most twice, and its FAT holds every entry. */
  method FatSizeSectors(total: int, reserved: int, numFats: nat, spc: int) returns (fat: int, clusters: int)
    requires spc > 0
    ensures fat == FatSize(total, reserved, numFats, spc) >= 1 && clusters == ClusterCount(total, reserved, numFats, spc, fat)
    ensures (clusters + 2) * 4 <= fat * SECTOR
    ensures numFats * fat + clusters * spc <= total - reserved
  {
    hide ClusterCount;
    fat := 1;
    while true
      invariant fat == 1 || fat == Required(total, reserved, numFats, spc, 1) > 1
      decreases fat == 1
    {
      clusters := ClusterCount(total, reserved, numFats, spc, fat);
      var required := CeilDiv((clusters + 2) * 4, SECTOR);
      RequiredFalls(total, reserved, numFats, spc, 1, fat);
      if required <= fat {
        ClustersFit(total, reserved, numFats, spc, fat);
        return;
      }
      fat := required;
    }
  }

  lemma ClustersFit(total: int, reserved: int, numFats: nat, spc: int, fat: int)
    requires spc > 0
    ensures numFats * fat + ClusterCount(total, reserved, numFats, spc, fat) * spc <= total - reserved
  {
  }

  // ---------------------------------------------------------------- reading a volume

  datatype Geometry = Geometry(spc: nat, reserved: nat, numFats: nat, fatSectors: nat, root: nat)

  /** The geometry a boot sector describes. */
  function Mount(img: seq<Byte>): Geometry
    requires |img| >= SECTOR
  {
    Geometry(img[13], Number(img[14..16]), img[16], Number(img[36..40]), Number(img[44..48]))
  }

  /** What else it says of the volume: its size, where it starts on the disk, where the information sector
      and the backup boot sector are, and its label. */
  datatype Volume = Volume(total: nat, hidden: nat, infoSector: nat, backupSector: nat, name: seq<Byte>)

  function Describe(img: seq<Byte>): Volume
    requires |img| >= SECTOR
  {
    Volume(if Number(img[19..21]) != 0 then Number(img[19..21]) else Number(img[32..36]),
           Number(img[28..32]), Number(img[48..50]), Number(img[50..52]), img[71..82])
  }

  /** A FAT32 boot sector: no root directory of fixed size, no 16-bit FAT size, version 0, the extended
      fields present, and the type string and signature. */
  predicate IsFat32(img: seq<Byte>)
    requires |img| >= SECTOR
  {
    && Number(img[11..13]) == SECTOR && Number(img[17..19]) == 0 && Number(img[22..24]) == 0 && Number(img[42..44]) == 0
    && img[66] == 0x29 && img[82..90] == [0x46, 0x41, 0x54, 0x33, 0x32, 0x20, 0x20, 0x20]
    && img[510] == 0x55 && img[511] == 0xAA
  }

  function Sector(img: seq<Byte>, n: nat): seq<Byte>
    requires (n + 1) * SECTOR <= |img|
  {
    img[n * SECTOR..(n + 1) * SECTOR]
  }

  /** The information sector: its signatures, the number of free clusters and the first of them. */
  predicate IsInfo(s: seq<Byte>) {
    && |s| == SECTOR && s[0..4] == [0x52, 0x52, 0x61, 0x41] && s[484..488] == [0x72, 0x72, 0x41, 0x61]
    && s[510] == 0x55 && s[511] == 0xAA
  }

  function FirstData(g: Geometry): nat { g.reserved + g.numFats * g.fatSectors }

  function ClusterSize(g: Geometry): nat { g.spc * SECTOR }

  function ClusterOffset(g: Geometry, c: int): int { (FirstData(g) + (c - 2) * g.spc) * SECTOR }

  function FatOffset(g: Geometry, copy: nat): nat {
    ProductNonNegative(copy, g.fatSectors);
    (g.reserved + copy * g.fatSectors) * SECTOR
  }

  /** An entry of one copy of the FAT; its upper four bits are reserved. */
  function FatEntry(img: seq<Byte>, g: Geometry, copy: nat, c: nat): nat
    requires FatOffset(g, copy) + 4 * c + 4 <= |img|
  {
    var at := FatOffset(g, copy) + 4 * c;
    Number(img[at..at + 4]) % 0x1000_0000
  }

  /** The clusters of a file by one copy of the FAT, or none if the chain is broken or does not end. */
  function Chain(img: seq<Byte>, g: Geometry, copy: nat, c: nat, fuel: nat): Option<seq<nat>>
    decreases fuel
  {
    var at := FatOffset(g, copy) + 4 * c;
    if fuel == 0 || c < 2 || at + 4 > |img| then None
    else
      var next := FatEntry(img, g, copy, c);
      if next >= END_OF_CHAIN then Some([c])
      else
        match Chain(img, g, copy, next, fuel - 1)
        case None => None
        case Some(rest) => Some([c] + rest)
  }

  function ClusterData(img: seq<Byte>, g: Geometry, c: nat): seq<Byte> {
    var at := ClusterOffset(g, c);
    if 0 <= at && at + ClusterSize(g) <= |img| then img[at..at + ClusterSize(g)] else []
  }

  function Gather(img: seq<Byte>, g: Geometry, chain: seq<nat>): seq<Byte> {
    if chain == [] then [] else ClusterData(img, g, chain[0]) + Gather(img, g, chain[1..])
  }

  /** A file's bytes: its chain's clusters cut to its size. */
  function ReadFile(img: seq<Byte>, g: Geometry, copy: nat, first: nat, size: nat, fuel: nat): Option<seq<Byte>> {
    match Chain(img, g, copy, first, fuel)
    case None => None
    case Some(chain) => if |Gather(img, g, chain)| < size then None else Some(Gather(img, g, chain)[..size])
  }

  datatype Listed = Listed(shortName: seq<Byte>, attributes: Byte, longName: Option<seq<Half>>, first: nat, size: nat)

  /** The files of a directory; pending holds the long-name entries before the next short one. */
  function ListDirectory(d: seq<Byte>, pending: seq<DirectoryEntry>): seq<Listed>
    decreases |d|
  {
    if |d| < 32 || d[0] == 0 then []
    else
      var e := d[..32];
      if e[0] == 0xE5 then ListDirectory(d[32..], [])
      else if e[11] == LONG_NAME_ATTRIBUTE then ListDirectory(d[32..], pending + [e])
      else [ListedFrom(e, pending)] + ListDirectory(d[32..], [])
  }

  function ListedFrom(e: DirectoryEntry, pending: seq<DirectoryEntry>): Listed {
    Listed(e[..11], e[11], Decode(pending, e[..11]), Number(e[26..28]) + 0x1_0000 * Number(e[20..22]), Number(e[28..32]))
  }

  // ---------------------------------------------------------------- cluster arithmetic

  lemma ClusterStep(g: Geometry, c: int, n: int)
    ensures ClusterOffset(g, c + n) == ClusterOffset(g, c) + n * ClusterSize(g)
  {
    assert (c + n - 2) * g.spc == (c - 2) * g.spc + n * g.spc;
    assert n * (g.spc * SECTOR) == (n * g.spc) * SECTOR;
  }

  function Consecutive(first: nat, n: nat): (r: seq<nat>)
    ensures |r| == n
  {
    seq(n, i => first + i)
  }

  lemma {:induction false} GatherConsecutive(img: seq<Byte>, g: Geometry, first: nat, n: nat)
    requires 0 <= ClusterOffset(g, first) && ClusterOffset(g, first + n) <= |img|
    ensures ClusterOffset(g, first) <= ClusterOffset(g, first + n)
    ensures Gather(img, g, Consecutive(first, n)) == img[ClusterOffset(g, first)..ClusterOffset(g, first + n)]
    decreases n
  {
    hide ClusterOffset, ClusterSize;
    ClusterStep(g, first, n);
    ProductNonNegative(n, ClusterSize(g));
    if n > 0 {
      ClusterStep(g, first, 1);
      ClusterStep(g, first + 1, n - 1);
      ProductNonNegative(n - 1, ClusterSize(g));
      GatherConsecutive(img, g, first + 1, n - 1);
      assert Consecutive(first, n)[1..] == Consecutive(first + 1, n - 1);
    }
  }

  /** Entries first, first + 1, ... link the n clusters of a file. */
  predicate Links(fat: seq<nat>, first: nat, n: nat) {
    && 1 <= n && first + n <= |fat|
    && forall c :: first <= c < first + n ==> fat[c] == if c == first + n - 1 then 0x0FFF_FFFF else c + 1
  }

  /** Copy `copy` of the FAT on the volume holds these entries. */
  predicate FatHolds(img: seq<Byte>, g: Geometry, copy: nat, fat: seq<nat>) {
    && FatOffset(g, copy) + 4 * |fat| <= |img|
    && forall c :: 0 <= c < |fat| ==> Number(img[FatOffset(g, copy) + 4 * c..FatOffset(g, copy) + 4 * c + 4]) == fat[c]
  }

  lemma {:induction false} ChainConsecutive(img: seq<Byte>, g: Geometry, copy: nat, fat: seq<nat>, first: nat, n: nat, fuel: nat)
    requires FatHolds(img, g, copy, fat) && Links(fat, first, n) && 2 <= first && first + n <= END_OF_CHAIN && n <= fuel
    ensures Chain(img, g, copy, first, fuel) == Some(Consecutive(first, n))
    decreases n
  {
    hide FatOffset;
    assert Number(img[FatOffset(g, copy) + 4 * first..FatOffset(g, copy) + 4 * first + 4]) == fat[first];
    if n == 1 {
      assert Consecutive(first, 1) == [first];
    } else {
      ChainConsecutive(img, g, copy, fat, first + 1, n - 1, fuel - 1);
      assert Consecutive(first, n) == [first] + Consecutive(first + 1, n - 1);
    }
  }
}
