/** The page-table builder (host/emulator/page_table_builder.cpp) over flat RAM with the emulator's
    bump-down page allocator (host/emulator/cpu.cpp): the tables in memory always stand for a
    finite map from pages to mappings, and the translator reads exactly that map. */
module PageTables {
  import opened Words
  import opened Paging

  // ---------------------------------------------------------------- 64-bit words of flat memory

  function Read64(m: Memory, a: Word): Word { Join(Block(m, a)) }

  /** Memory as the translator reads it. */
  function BusOf(m: Memory): Bus { a => Read64(m, a) }

  function Write64(m: Memory, a: Word, v: Word): Memory { Store(m, a, ALL, Split(v)) }

  predicate InRam(m: Memory, a: Word) { forall i :: 0 <= i < 8 ==> Plus(a, i) in m }

  lemma ReadWritten(m: Memory, a: Word, v: Word)
    requires InRam(m, a)
    ensures Read64(Write64(m, a, v), a) == v
  {
    hide Join, Split;
    assert Block(Write64(m, a, v), a) == Split(v);
    JoinSplit(v);
  }

  lemma WriteKeys(m: Memory, a: Word, v: Word)
    ensures Write64(m, a, v).Keys == m.Keys
  {
  }

  lemma ReadElsewhere(m: Memory, a: Word, v: Word, b: Word)
    requires a % 8 == 0 && b % 8 == 0 && a != b
    ensures Read64(Write64(m, a, v), b) == Read64(m, b)
  {
    hide Join, Split;
    forall i: nat | i < 8
      ensures Peek(Write64(m, a, v), Plus(b, i)) == Peek(m, Plus(b, i))
    {
      assert Plus(b, i) == b + i;
      assert Minus(b + i, a) >= 8;
    }
    assert Block(Write64(m, a, v), b) == Block(m, b);
  }

  // ---------------------------------------------------------------- entries

  /** What one leaf records. */
  datatype Mapping = Mapping(frame: Word, read: bool, write: bool, execute: bool, global: bool)

  /** ((page >> 12) << 10) | V; the fields do not overlap, so the bits add. */
  function TablePte(page: Word): Word { page / 4096 * 1024 + 1 }

  predicate Permitted(m: Mapping, access: Access) {
    match access
    case Read => m.read
    case Write => m.write
    case Execute => m.execute
  }

  /** V and the permission and global bits of a leaf. */
  function LeafBits(m: Mapping): (b: nat)
    ensures b < 64 && b % 2 == 1 && b / 16 % 2 == 0
    ensures (b / 2 % 2 == 1 <==> m.read) && (b / 4 % 2 == 1 <==> m.write) && (b / 8 % 2 == 1 <==> m.execute)
  {
    1 + (if m.read then 2 else 0) + (if m.write then 4 else 0) + (if m.execute then 8 else 0)
    + (if m.global then 32 else 0)
  }

  function LeafPte(m: Mapping): Word { m.frame / 4096 * 1024 + LeafBits(m) }

  lemma TablePteDecodes(page: Word)
    requires page % 4096 == 0
    ensures var pte := TablePte(page); V(pte) && !IsLeaf(pte) && Target(pte) == page && (Reserved(pte) <==> page >= 0x100_0000_0000_0000)
  {
    EntryFlags(page / 4096, 1);
    EntryFrame(page / 4096, 1);
  }

  lemma LeafPteDecodes(m: Mapping)
    requires m.frame % 4096 == 0
    ensures
      var pte := LeafPte(m);
      && V(pte) && (R(pte) <==> m.read) && (W(pte) <==> m.write) && (X(pte) <==> m.execute) && !U(pte)
      && Target(pte) == m.frame && (Reserved(pte) <==> m.frame >= 0x100_0000_0000_0000)
  {
    hide LeafPte, V, R, W, X, U, Target, Reserved;
    LeafPteFlags(m);
    LeafPteFrame(m);
  }

  lemma LeafPteFlags(m: Mapping)
    ensures
      var pte := LeafPte(m);
      V(pte) && (R(pte) <==> m.read) && (W(pte) <==> m.write) && (X(pte) <==> m.execute) && !U(pte)
  {
    hide LeafBits;
    EntryFlags(m.frame / 4096, LeafBits(m));
  }

  lemma LeafPteFrame(m: Mapping)
    requires m.frame % 4096 == 0
    ensures Target(LeafPte(m)) == m.frame && (Reserved(LeafPte(m)) <==> m.frame >= 0x100_0000_0000_0000)
  {
    hide LeafBits;
    EntryFrame(m.frame / 4096, LeafBits(m));
  }

  lemma Halve(x: nat, y: nat)
    ensures (2 * x + y) / 2 == x + y / 2 && (2 * x + y) % 2 == y % 2
  {
  }

  lemma NestedHalves(v: nat)
    ensures v / 4 == v / 2 / 2 && v / 8 == v / 2 / 2 / 2 && v / 16 == v / 2 / 2 / 2 / 2
  {
  }

  lemma EntryFlags(n: nat, low: nat)
    requires low < 64
    ensures
      var pte := n * 1024 + low;
      && pte % 2 == low % 2 && pte / 2 % 2 == low / 2 % 2 && pte / 4 % 2 == low / 4 % 2 && pte / 8 % 2 == low / 8 % 2
      && pte / 16 % 2 == low / 16 % 2
  {
    var pte := n * 1024 + low;
    NestedHalves(pte);
    NestedHalves(low);
    Halve(n * 512, low);
    Halve(n * 256, low / 2);
    Halve(n * 128, low / 2 / 2);
    Halve(n * 64, low / 2 / 2 / 2);
    Halve(n * 32, low / 2 / 2 / 2 / 2);
  }

  lemma EntryFrame(n: nat, low: nat)
    requires low < 64
    ensures (n * 1024 + low) / 1024 == n && (n * 1024 + low) / 0x40_0000_0000_0000 == n / 0x1000_0000_0000
  {
  }

  /** A level-0 leaf resolves to its mapping. */
  lemma LeafResolves(m: Mapping, va: Word, access: Access, user: bool)
    requires m.frame % 4096 == 0
    ensures
      ResolveLeaf(LeafPte(m), 0, va, access, user)
      == (if !m.read && !m.write && !m.execute then MakeFault(TRAP_NOT_PRESENT, AUX_NO_VALID_PTE, 0)
          else if !Permitted(m, access) || user then MakeFault(TRAP_PERMISSION, AUX_PERMISSION, 0)
          else Mapped(InPage(m.frame, va)))
  {
    hide LeafPte, Target, Aux;
    LeafPteDecodes(m);
  }

  // ---------------------------------------------------------------- the abstract address space

  type Key = (nat, nat, nat)

  function KeyOf(va: Word): Key { (Index(va, 2), Index(va, 1), Index(va, 0)) }

  /** The tables present and the mappings they hold. */
  datatype Space = Space(root: Word, l1: map<nat, Word>, l0: map<(nat, nat), Word>, leaves: map<Key, Mapping>)

  datatype Node = Root | L1(i: nat) | L0(i: nat, j: nat)

  predicate Present(s: Space, n: Node) {
    match n
    case Root => true
    case L1(i) => i in s.l1
    case L0(i, j) => (i, j) in s.l0
  }

  function PageOf(s: Space, n: Node): Word
    requires Present(s, n)
  {
    match n
    case Root => s.root
    case L1(i) => s.l1[i]
    case L0(i, j) => s.l0[(i, j)]
  }

  /** The entry a table must hold. */
  function Expected(s: Space, n: Node, k: nat): Word {
    match n
    case Root => if k in s.l1 then TablePte(s.l1[k]) else 0
    case L1(i) => if (i, k) in s.l0 then TablePte(s.l0[(i, k)]) else 0
    case L0(i, j) => if (i, j, k) in s.leaves then LeafPte(s.leaves[(i, j, k)]) else 0
  }

  function Child(n: Node, k: nat): Node
    requires !n.L0?
  {
    if n.Root? then L1(k) else L0(n.i, k)
  }

  /** Translation as the abstract space defines it, fault details included. */
  function SpaceWalk(s: Space, va: Word, access: Access, user: bool): Outcome {
    var (i, j, k) := KeyOf(va);
    if i !in s.l1 then MakeFault(TRAP_NOT_PRESENT, AUX_NO_VALID_PTE, 2)
    else if (i, j) !in s.l0 then MakeFault(TRAP_NOT_PRESENT, AUX_NO_VALID_PTE, 1)
    else if (i, j, k) !in s.leaves then MakeFault(TRAP_NOT_PRESENT, AUX_NO_VALID_PTE, 0)
    else
      var m := s.leaves[(i, j, k)];
      if m.frame >= 0x100_0000_0000_0000 then MakeFault(TRAP_RESERVED, AUX_RESERVED_BIT, 0)
      else if !m.read && !m.write && !m.execute then MakeFault(TRAP_NOT_PRESENT, AUX_NO_VALID_PTE, 0)
      else if !Permitted(m, access) || user then MakeFault(TRAP_PERMISSION, AUX_PERMISSION, 0)
      else Mapped(InPage(m.frame, va))
  }

  // ---------------------------------------------------------------- memory holds the space

  ghost predicate PagesOk(s: Space, low: int, high: int) {
    && (forall n :: Present(s, n) ==>
          PageOf(s, n) % 4096 == 0 && low <= PageOf(s, n) && PageOf(s, n) + 4096 <= high)
    && (forall n1, n2 :: Present(s, n1) && Present(s, n2) && n1 != n2 ==> PageOf(s, n1) != PageOf(s, n2))
    && (forall ij :: ij in s.l0 ==> ij.0 in s.l1)
    && (forall ijk :: ijk in s.leaves ==> (ijk.0, ijk.1) in s.l0 && s.leaves[ijk].frame % 4096 == 0)
  }

  ghost predicate Holds(m: Memory, s: Space) {
    forall n, k: nat :: Present(s, n) && k < 512 && PageOf(s, n) + 8 * k <= WORD_MAX ==>
      Read64(m, PageOf(s, n) + 8 * k) == Expected(s, n, k)
  }

  /** The translator, reading the tables in memory, computes the abstract space's translation. */
  lemma WalkIsSpaceWalk(m: Memory, s: Space, low: int, high: int, va: Word, access: Access, user: bool)
    requires PagesOk(s, low, high) && high <= 0x100_0000_0000_0000 && Holds(m, s)
    ensures Walk(BusOf(m), s.root, 2, va, access, user) == SpaceWalk(s, va, access, user)
  {
    hide Read64, TablePte, LeafPte, Target, IsLeaf, V, Reserved, ResolveLeaf, InPage, Index, Aux;
    var read64 := BusOf(m);
    var (i, j, k) := KeyOf(va);
    assert Present(s, Root);
    assert read64(PteAddr(s.root, va, 2)) == Expected(s, Root, i);
    BareZero();
    if i in s.l1 {
      assert Present(s, L1(i));
      TablePteDecodes(s.l1[i]);
      assert read64(PteAddr(s.l1[i], va, 1)) == Expected(s, L1(i), j);
      if (i, j) in s.l0 {
        assert Present(s, L0(i, j));
        TablePteDecodes(s.l0[(i, j)]);
        assert read64(PteAddr(s.l0[(i, j)], va, 0)) == Expected(s, L0(i, j), k);
        if (i, j, k) in s.leaves {
          LeafPteDecodes(s.leaves[(i, j, k)]);
          LeafResolves(s.leaves[(i, j, k)], va, access, user);
        }
      }
    }
  }

  /** The entries in memory, bit by bit: for a table its page number from bit 10 on and the valid bit; for a
      mapping the frame's number there, the valid bit, and bits 1, 2, 3 and 5 for read, write, execute
      and global, never the user bit 4; zero where nothing is mapped. */
  lemma EntriesInNumbers(m: Memory, s: Space, low: int, high: int, i: nat, j: nat, k: nat)
    requires PagesOk(s, low, high) && high <= 0x100_0000_0000_0000 && Holds(m, s) && i < 512 && j < 512 && k < 512
    ensures
      var e2 := Read64(m, Plus(s.root, 8 * i));
      if i !in s.l1 then e2 == 0
      else
        var e1 := Read64(m, Plus(s.l1[i], 8 * j));
        && e2 == s.l1[i] / 4096 * 1024 + 1
        && if (i, j) !in s.l0 then e1 == 0
           else
             var e0 := Read64(m, Plus(s.l0[(i, j)], 8 * k));
             && e1 == s.l0[(i, j)] / 4096 * 1024 + 1
             && if (i, j, k) !in s.leaves then e0 == 0
                else
                  var leaf := s.leaves[(i, j, k)];
                  e0 == leaf.frame / 4096 * 1024 + 1 + (if leaf.read then 2 else 0) + (if leaf.write then 4 else 0)
                        + (if leaf.execute then 8 else 0) + (if leaf.global then 32 else 0)
  {
    hide Read64;
    assert Present(s, Root) && Expected(s, Root, i) == Read64(m, PageOf(s, Root) + 8 * i);
    if i in s.l1 {
      assert Present(s, L1(i)) && Expected(s, L1(i), j) == Read64(m, PageOf(s, L1(i)) + 8 * j);
      if (i, j) in s.l0 {
        assert Present(s, L0(i, j)) && Expected(s, L0(i, j), k) == Read64(m, PageOf(s, L0(i, j)) + 8 * k);
      }
    }
  }

  /** What the translator answers for the tables in memory, from the checks on. */
  lemma TranslationIsSpaceTranslation(m: Memory, s: Space, low: int, high: int, va: Word, access: Access, user: bool)
    requires PagesOk(s, low, high) && high <= 0x100_0000_0000_0000 && Holds(m, s)
    ensures Translation(BusOf(m), Config(true, s.root, user), va, access) == SpaceTranslation(s, va, access, user)
  {
    hide Walk, SpaceWalk, Canonical, Holds;
    assert Present(s, Root) && PageOf(s, Root) == s.root;
    WalkIsSpaceWalk(m, s, low, high, va, access, user);
  }

  lemma BareZero()
    ensures !V(0)
  {
  }

  function SpaceTranslation(s: Space, va: Word, access: Access, user: bool): Outcome {
    if access == Execute && va % 2 == 1 then MakeFault(TRAP_EXEC_ALIGN, AUX_NONE, 0)
    else if !Canonical(va) then MakeFault(TRAP_CANONICAL, AUX_CANONICAL, 2)
    else SpaceWalk(s, va, access, user)
  }

  /** A canonical address is translated to its page's mapping plus offset exactly when the page is
      mapped with the permission, below 2^56, and the access is a supervisor's. */
  lemma MappedExactlyWhenAllowed(s: Space, va: Word, access: Access, user: bool)
    requires Canonical(va) && (access == Execute ==> va % 2 == 0)
    ensures
      var outcome, key := SpaceTranslation(s, va, access, user), KeyOf(va);
      var present := key.0 in s.l1 && (key.0, key.1) in s.l0 && key in s.leaves;
      && (outcome.Mapped? <==>
            present && Permitted(s.leaves[key], access) && s.leaves[key].frame < 0x100_0000_0000_0000 && !user)
      && (outcome.Mapped? ==> outcome.physical == InPage(s.leaves[key].frame, va))
      && (!present ==> outcome.Fault? && outcome.cause == TRAP_NOT_PRESENT)
  {
  }

  /** Outcomes as a program sees them; the auxiliary word also tells how deep the walk got. */
  predicate SameTranslation(a: Outcome, b: Outcome) {
    match a
    case Mapped(_) => b == a
    case Fault(cause, _) => b.Fault? && b.cause == cause
  }

  ghost predicate WellFormed(s: Space) { forall ijk :: ijk in s.leaves ==> ijk.0 in s.l1 && (ijk.0, ijk.1) in s.l0 }

  /** Two spaces that agree on a page's mapping translate it alike, whatever other tables they have. */
  lemma SameLeafSameTranslation(s1: Space, s2: Space, va: Word, access: Access, user: bool)
    requires WellFormed(s1) && WellFormed(s2)
    requires KeyOf(va) in s1.leaves <==> KeyOf(va) in s2.leaves
    requires KeyOf(va) in s1.leaves ==> s1.leaves[KeyOf(va)] == s2.leaves[KeyOf(va)]
    ensures SameTranslation(SpaceTranslation(s1, va, access, user), SpaceTranslation(s2, va, access, user))
  {
  }

  /** What an added empty table changes: the level reported by a fault below it. */
  lemma EmptyTableDeepensFault(s: Space, i: nat, page: Word, va: Word, access: Access, user: bool)
    requires i !in s.l1 && Index(va, 2) == i && Canonical(va) && (access == Execute ==> va % 2 == 0)
    requires (i, Index(va, 1)) !in s.l0
    ensures SpaceTranslation(s, va, access, user) == MakeFault(TRAP_NOT_PRESENT, AUX_NO_VALID_PTE, 2)
    ensures SpaceTranslation(s.(l1 := s.l1[i := page]), va, access, user) == MakeFault(TRAP_NOT_PRESENT, AUX_NO_VALID_PTE, 1)
    ensures SpaceTranslation(s, va, access, user) != SpaceTranslation(s.(l1 := s.l1[i := page]), va, access, user)
  {
  }

  /** The canonical address at which an entry of the root begins. */
  function StartOf(i: nat): Word
    requires i < 512
  {
    i * 0x4000_0000 + (if i < 256 then 0 else 0xFFFF_FF80_0000_0000)
  }

  lemma StartIsCanonical(i: nat)
    requires i < 512
    ensures Canonical(StartOf(i)) && Index(StartOf(i), 2) == i
  {
  }

  /** Canonical addresses with the same table indices are on the same page. */
  lemma CanonicalKey(va: Word, vb: Word)
    requires Canonical(va) && Canonical(vb) && KeyOf(va) == KeyOf(vb)
    ensures SamePage(va, vb)
  {
    PageFromKey(va);
    PageFromKey(vb);
  }

  lemma PageFromKey(va: Word)
    requires Canonical(va)
    ensures
      var (i, j, k) := KeyOf(va);
      va / 4096 == i * 0x4_0000 + j * 0x200 + k + (if i >= 256 then 0x1FF_FFFF * 0x800_0000 else 0)
  {
    var p := va / 4096;
    var q := p / 0x200;
    var r := q / 0x200;
    assert va / 0x20_0000 == q && va / 0x4000_0000 == r;
    assert va / 0x80_0000_0000 == r / 0x200 && va / 0x40_0000_0000 == r / 0x100;
  }

  // ---------------------------------------------------------------- updating the tables in memory

  lemma DistinctEntries(p: Word, k: nat, q: Word, j: nat)
    requires p % 4096 == 0 && q % 4096 == 0 && k < 512 && j < 512
    ensures p + 8 * k == q + 8 * j ==> p == q && k == j
    ensures p != q ==> !(q <= p + 8 * k < q + 4096)
    ensures (p + 8 * k) % 8 == 0
  {
    var a, b := p / 4096, q / 4096;
    EntriesOfPages(a, k, b, j);
    DivModUnique(p + 8 * k, 8, 512 * a + k, 0);
  }

  lemma EntriesOfPages(a: nat, k: nat, b: nat, j: nat)
    requires k < 512 && j < 512
    ensures 4096 * a + 8 * k == 4096 * b + 8 * j ==> a == b && k == j
    ensures a != b ==> !(4096 * b <= 4096 * a + 8 * k < 4096 * b + 4096)
  {
  }

  /** All words outside [page, page + n) are unchanged and those inside are zero. */
  ghost predicate ZeroedTo(m0: Memory, m1: Memory, page: Word, n: nat) {
    && m1.Keys == m0.Keys
    && (page % 4096 == 0 ==>
          forall a: Word :: a % 8 == 0 ==>
            Read64(m1, a) == if page <= a < page + n then 0 else Read64(m0, a))
  }

  ghost predicate Zeroed(m0: Memory, m1: Memory, page: Word) { ZeroedTo(m0, m1, page, 4096) }

  lemma ZeroedKeepsTables(m0: Memory, m1: Memory, s: Space, low: int, high: int, page: Word)
    requires PagesOk(s, low, high) && Holds(m0, s) && Zeroed(m0, m1, page)
    requires page % 4096 == 0 && page + 4096 <= low
    ensures Holds(m1, s)
  {
    hide Read64, Expected;
    forall n, k: nat | Present(s, n) && k < 512 && PageOf(s, n) + 8 * k <= WORD_MAX
      ensures Read64(m1, PageOf(s, n) + 8 * k) == Expected(s, n, k)
    {
      DistinctEntries(PageOf(s, n), k, page, 0);
    }
  }

  /** Writing one entry moves memory from one space to another that differs in that entry only. */
  lemma WriteEntry(m: Memory, s': Space, low: int, high: int, n: Node, k: nat, v: Word)
    requires PagesOk(s', low, high) && high <= WORD_MAX && Holds'(m, s', n, k)
    requires Present(s', n) && k < 512 && InRam(m, PageOf(s', n) + 8 * k)
    requires Expected(s', n, k) == v
    ensures Holds(Write64(m, PageOf(s', n) + 8 * k, v), s')
  {
    hide Read64, Expected, Write64, InRam, Present, PageOf, PagesOk;
    PagesWithin(s', low, high, n);
    forall n', k': nat | Present(s', n') && k' < 512 && PageOf(s', n') + 8 * k' <= WORD_MAX
      ensures Read64(Write64(m, PageOf(s', n) + 8 * k, v), PageOf(s', n') + 8 * k') == Expected(s', n', k')
    {
      PagesWithin(s', low, high, n');
      if n' == n && k' == k {
        ReadWritten(m, PageOf(s', n) + 8 * k, v);
      } else {
        PagesApart(s', low, high, n, n');
        DistinctEntries(PageOf(s', n'), k', PageOf(s', n), k);
        DistinctEntries(PageOf(s', n), k, PageOf(s', n'), k');
        ReadElsewhere(m, PageOf(s', n) + 8 * k, v, PageOf(s', n') + 8 * k');
      }
    }
  }

  lemma PagesWithin(s: Space, low: int, high: int, n: Node)
    requires PagesOk(s, low, high) && Present(s, n)
    ensures PageOf(s, n) % 4096 == 0 && low <= PageOf(s, n) && PageOf(s, n) + 4096 <= high
  {
  }

  lemma NoOrphan(s: Space, low: int, high: int, i: nat, j: nat)
    requires PagesOk(s, low, high)
    ensures i !in s.l1 ==> (i, j) !in s.l0
  {
  }

  lemma PagesApart(s: Space, low: int, high: int, n: Node, n': Node)
    requires PagesOk(s, low, high) && Present(s, n) && Present(s, n')
    ensures n != n' ==> PageOf(s, n) != PageOf(s, n')
  {
  }

  /** Memory holds every entry of the space except possibly entry k of node n. */
  ghost predicate Holds'(m: Memory, s: Space, n: Node, k: nat) {
    forall n', k': nat :: Present(s, n') && k' < 512 && PageOf(s, n') + 8 * k' <= WORD_MAX && (n' != n || k' != k) ==>
      Read64(m, PageOf(s, n') + 8 * k') == Expected(s, n', k')
  }

  /** The space with an empty table hung below node n at entry k. */
  function WithTable(s: Space, n: Node, k: nat, page: Word): Space
    requires !n.L0?
  {
    if Present(s, Child(n, k)) then s
    else if n.Root? then s.(l1 := s.l1[k := page])
    else s.(l0 := s.l0[(n.i, k) := page])
  }

  lemma UnchangedEntry(s: Space, n: Node, k: nat, page: Word, n': Node, k': nat)
    requires Present(s, n) && !n.L0? && !Present(s, Child(n, k))
    requires Present(WithTable(s, n, k, page), n') && n' != Child(n, k) && (n' != n || k' != k)
    ensures
      var s' := WithTable(s, n, k, page);
      Present(s, n') && PageOf(s', n') == PageOf(s, n') && Expected(s', n', k') == Expected(s, n', k')
  {
  }

  lemma NewTableIsEmpty(s: Space, low: int, high: int, n: Node, k: nat, page: Word, k': nat)
    requires PagesOk(s, low, high) && Present(s, n) && !n.L0? && !Present(s, Child(n, k))
    ensures
      var s' := WithTable(s, n, k, page);
      PageOf(s', Child(n, k)) == page && Expected(s', Child(n, k), k') == 0
  {
  }

  lemma OtherEntriesHold(m0: Memory, m1: Memory, s: Space, low: int, high: int, n: Node, k: nat, page: Word)
    requires PagesOk(s, low, high) && Holds(m1, s) && Zeroed(m0, m1, page)
    requires page % 4096 == 0 && page + 4096 <= low
    requires Present(s, n) && !n.L0? && !Present(s, Child(n, k))
    ensures Holds'(m1, WithTable(s, n, k, page), n, k)
  {
    hide Read64, Expected, WithTable, PagesOk, Holds, Zeroed, Present, PageOf;
    var s' := WithTable(s, n, k, page);
    forall n', k': nat | Present(s', n') && k' < 512 && PageOf(s', n') + 8 * k' <= WORD_MAX && (n' != n || k' != k)
      ensures Read64(m1, PageOf(s', n') + 8 * k') == Expected(s', n', k')
    {
      OtherEntryHolds(m0, m1, s, low, high, n, k, page, n', k');
    }
  }

  lemma OtherEntryHolds(m0: Memory, m1: Memory, s: Space, low: int, high: int, n: Node, k: nat, page: Word, n': Node, k': nat)
    requires PagesOk(s, low, high) && Holds(m1, s) && Zeroed(m0, m1, page)
    requires page % 4096 == 0 && page + 4096 <= low
    requires Present(s, n) && !n.L0? && !Present(s, Child(n, k))
    requires
      var s' := WithTable(s, n, k, page);
      Present(s', n') && k' < 512 && PageOf(s', n') + 8 * k' <= WORD_MAX && (n' != n || k' != k)
    ensures
      var s' := WithTable(s, n, k, page);
      Read64(m1, PageOf(s', n') + 8 * k') == Expected(s', n', k')
  {
    hide Read64, Expected, WithTable, PagesOk;
    if n' == Child(n, k) {
      NewTableIsEmpty(s, low, high, n, k, page, k');
    } else {
      UnchangedEntry(s, n, k, page, n', k');
    }
  }

  lemma AddTable(m0: Memory, m1: Memory, s: Space, low: int, high: int, n: Node, k: nat, page: Word)
    requires PagesOk(s, low, high) && Holds(m0, s) && Zeroed(m0, m1, page) && high <= WORD_MAX
    requires page % 4096 == 0 && page + 4096 <= low
    requires Present(s, n) && !n.L0? && k < 512 && !Present(s, Child(n, k))
    requires InRam(m1, PageOf(s, n) + 8 * k)
    ensures
      var s' := WithTable(s, n, k, page);
      PagesOk(s', page, high) && Holds(Write64(m1, PageOf(s, n) + 8 * k, TablePte(page)), s')
  {
    hide Holds, Holds', PagesOk, Zeroed, Write64, Read64, InRam, TablePte, Expected;
    var s' := WithTable(s, n, k, page);
    AddedEntry(s, n, k, page);
    ZeroedKeepsTables(m0, m1, s, low, high, page);
    AddedPagesOk(s, low, high, n, k, page);
    OtherEntriesHold(m0, m1, s, low, high, n, k, page);
    WriteEntry(m1, s', page, high, n, k, TablePte(page));
  }

  lemma AddedEntry(s: Space, n: Node, k: nat, page: Word)
    requires Present(s, n) && !n.L0? && !Present(s, Child(n, k))
    ensures
      var s' := WithTable(s, n, k, page);
      Present(s', n) && PageOf(s', n) == PageOf(s, n) && Expected(s', n, k) == TablePte(page)
  {
  }

  lemma AddedPagesOk(s: Space, low: int, high: int, n: Node, k: nat, page: Word)
    requires PagesOk(s, low, high) && page % 4096 == 0 && page + 4096 <= low
    requires Present(s, n) && !n.L0? && !Present(s, Child(n, k))
    ensures PagesOk(WithTable(s, n, k, page), page, high)
  {
    var s' := WithTable(s, n, k, page);
    forall n' | Present(s', n')
      ensures n' == Child(n, k) || (Present(s, n') && PageOf(s', n') == PageOf(s, n'))
    {
    }
  }

  lemma EightAligned(page: Word, off: nat)
    requires page % 4096 == 0 && off % 8 == 0
    ensures (page + off) % 8 == 0
  {
    assert page == page / 4096 * 512 * 8;
  }

  lemma WroteZero(m: Memory, page: Word, off: nat)
    requires page % 4096 == 0 && off % 8 == 0 && off < 4096 && page + 4096 <= WORD_MAX && InRam(m, page + off)
    ensures forall a: Word :: a % 8 == 0 ==>
      Read64(Write64(m, page + off, 0), a) == if a == page + off then 0 else Read64(m, a)
  {
    hide Read64, Write64, InRam;
    EightAligned(page, off);
    ReadWritten(m, page + off, 0);
    forall a: Word | a % 8 == 0 && a != page + off
      ensures Read64(Write64(m, page + off, 0), a) == Read64(m, a)
    {
      ReadElsewhere(m, page + off, 0, a);
    }
  }

  lemma NothingZeroed(m: Memory, page: Word)
    ensures ZeroedTo(m, m, page, 0)
  {
  }

  lemma ZeroesNext(m0: Memory, m1: Memory, page: Word, off: nat)
    requires ZeroedTo(m0, m1, page, off) && off % 8 == 0 && off < 4096 && page + 4096 <= WORD_MAX && InRam(m1, page + off)
    ensures ZeroedTo(m0, Write64(m1, page + off, 0), page, off + 8)
  {
    hide Read64, Write64, InRam;
    var m2 := Write64(m1, page + off, 0);
    WriteKeys(m1, page + off, 0);
    if page % 4096 == 0 {
      WroteZero(m1, page, off);
      EightAligned(page, off);
      forall a: Word | a % 8 == 0
        ensures Read64(m2, a) == if page <= a < page + (off + 8) then 0 else Read64(m0, a)
      {
        NextWord(page + off, a);
        assert Read64(m2, a) == if a == page + off then 0 else Read64(m1, a);
        assert Read64(m1, a) == if page <= a < page + off then 0 else Read64(m0, a);
      }
    }
  }

  lemma NextWord(a: nat, b: nat)
    requires a % 8 == 0 && b % 8 == 0
    ensures a <= b < a + 8 ==> a == b
  {
  }

  lemma ZeroedTwice(m0: Memory, m1: Memory, m2: Memory, page: Word)
    requires Zeroed(m0, m1, page) && Zeroed(m1, m2, page)
    ensures Zeroed(m0, m2, page)
  {
    hide Read64;
  }

  lemma ZeroedInRam(m0: Memory, m1: Memory, page: Word, a: Word)
    requires Zeroed(m0, m1, page) && InRam(m0, a)
    ensures InRam(m1, a)
  {
    hide Read64;
    assert m1.Keys == m0.Keys;
  }

  lemma EmptySpaceHolds(m0: Memory, m1: Memory, root: Word)
    requires Zeroed(m0, m1, root) && root % 4096 == 0
    ensures Holds(m1, Space(root, map[], map[], map[]))
  {
    hide Read64, Expected;
    var s := Space(root, map[], map[], map[]);
    forall n, k: nat | Present(s, n) && k < 512 && PageOf(s, n) + 8 * k <= WORD_MAX
      ensures Read64(m1, PageOf(s, n) + 8 * k) == Expected(s, n, k)
    {
      EightAligned(root, 8 * k);
      EmptyEntry(root, n, k);
    }
  }

  lemma EmptyEntry(root: Word, n: Node, k: nat)
    requires Present(Space(root, map[], map[], map[]), n)
    ensures n == Root && Expected(Space(root, map[], map[], map[]), n, k) == 0
  {
  }

  lemma TableInRam(m: Memory, s: Space, low: int, high: int, n: Node, k: nat)
    requires PagesOk(s, low, high) && Present(s, n) && k < 512 && high <= 0x100_0000_0000_0000
    requires forall a: Word :: low <= a < high ==> a in m
    ensures PageOf(s, n) + 8 * k <= WORD_MAX && InRam(m, PageOf(s, n) + 8 * k)
  {
  }

  /** A non-leaf entry is valid exactly when the table below it is present, and points to it. */
  lemma EntryDecodes(m: Memory, s: Space, low: int, high: int, n: Node, k: nat)
    requires PagesOk(s, low, high) && Holds(m, s) && Present(s, n) && !n.L0? && k < 512
    requires PageOf(s, n) + 8 * k <= WORD_MAX
    ensures
      var pte := Read64(m, PageOf(s, n) + 8 * k);
      && (V(pte) <==> Present(s, Child(n, k)))
      && (V(pte) ==> Target(pte) == PageOf(s, Child(n, k)))
  {
    hide Read64, TablePte, Target, V;
    BareZero();
    assert Read64(m, PageOf(s, n) + 8 * k) == Expected(s, n, k);
    if Present(s, Child(n, k)) {
      TablePteDecodes(PageOf(s, Child(n, k)));
    }
  }

  lemma LowerIsFine(s: Space, low: int, low': int, high: int)
    requires PagesOk(s, low, high) && low' <= low
    ensures PagesOk(s, low', high)
  {
  }

  /** Writing a leaf entry of a present level-0 table adds its mapping to the space. */
  lemma MapLeaf(m: Memory, s: Space, low: int, high: int, key: Key, mapping: Mapping)
    requires PagesOk(s, low, high) && high <= WORD_MAX && Holds(m, s)
    requires Present(s, L0(key.0, key.1)) && key.2 < 512 && mapping.frame % 4096 == 0
    requires InRam(m, PageOf(s, L0(key.0, key.1)) + 8 * key.2)
    ensures
      var s' := s.(leaves := s.leaves[key := mapping]);
      && PagesOk(s', low, high)
      && Holds(Write64(m, PageOf(s, L0(key.0, key.1)) + 8 * key.2, LeafPte(mapping)), s')
  {
    hide Read64, Write64, LeafPte, TablePte;
    var s' := s.(leaves := s.leaves[key := mapping]);
    var n := L0(key.0, key.1);
    assert forall n' :: Present(s', n') == Present(s, n') && (Present(s, n') ==> PageOf(s', n') == PageOf(s, n'));
    forall n', k': nat | Present(s', n') && k' < 512 && PageOf(s', n') + 8 * k' <= WORD_MAX && (n' != n || k' != key.2)
      ensures Read64(m, PageOf(s', n') + 8 * k') == Expected(s', n', k')
    {
      assert Expected(s', n', k') == Expected(s, n', k');
    }
    WriteEntry(m, s', low, high, n, key.2, LeafPte(mapping));
  }

  /** The tables that mapping an address has to add. */
  function TablesMissing(s: Space, va: Word): nat {
    var (i, j, _) := KeyOf(va);
    if i !in s.l1 then 2 else if (i, j) !in s.l0 then 1 else 0
  }

  // ---------------------------------------------------------------- sequences of calls

  datatype Call = Call(va: Word, mapping: Mapping)

  /** What a sequence of successful calls has mapped. */
  function Recorded(calls: seq<Call>): map<Key, Mapping> {
    if calls == [] then map[]
    else
      var last := calls[|calls| - 1];
      Recorded(calls[..|calls| - 1])[KeyOf(last.va) := last.mapping]
  }

  /** For each page the last call counts, and a page without a call is not mapped. */
  lemma {:induction false} LastCallCounts(calls: seq<Call>, va: Word)
    ensures KeyOf(va) in Recorded(calls) <==> exists k :: 0 <= k < |calls| && KeyOf(calls[k].va) == KeyOf(va)
    ensures forall k ::
      0 <= k < |calls| && KeyOf(calls[k].va) == KeyOf(va)
      && (forall j :: k < j < |calls| ==> KeyOf(calls[j].va) != KeyOf(va))
      ==> KeyOf(va) in Recorded(calls) && Recorded(calls)[KeyOf(va)] == calls[k].mapping
  {
    hide KeyOf;
    if calls != [] {
      var init := calls[..|calls| - 1];
      LastCallCounts(init, va);
      assert forall k :: 0 <= k < |init| ==> init[k] == calls[k];
    }
  }

  /** The translation that a set of mappings means, details of faults aside. */
  function Meant(leaves: map<Key, Mapping>, va: Word, access: Access, user: bool): Outcome {
    if access == Execute && va % 2 == 1 then MakeFault(TRAP_EXEC_ALIGN, AUX_NONE, 0)
    else if !Canonical(va) then MakeFault(TRAP_CANONICAL, AUX_CANONICAL, 2)
    else if KeyOf(va) !in leaves then MakeFault(TRAP_NOT_PRESENT, AUX_NO_VALID_PTE, 0)
    else
      var m := leaves[KeyOf(va)];
      if m.frame >= 0x100_0000_0000_0000 then MakeFault(TRAP_RESERVED, AUX_RESERVED_BIT, 0)
      else if !m.read && !m.write && !m.execute then MakeFault(TRAP_NOT_PRESENT, AUX_NO_VALID_PTE, 0)
      else if !Permitted(m, access) || user then MakeFault(TRAP_PERMISSION, AUX_PERMISSION, 0)
      else Mapped(InPage(m.frame, va))
  }

  /** The tables in memory translate every address as the mappings say. */
  ghost predicate Means(m: Memory, root: Word, leaves: map<Key, Mapping>) {
    forall va, access, user ::
      SameTranslation(Translation(BusOf(m), Config(true, root, user), va, access), Meant(leaves, va, access, user))
  }

  lemma SpaceMeans(m: Memory, s: Space, low: int, high: int)
    requires PagesOk(s, low, high) && high <= 0x100_0000_0000_0000 && Holds(m, s)
    ensures Means(m, s.root, s.leaves)
  {
    hide Holds, BusOf, Translation, InPage, Canonical, Permitted;
    forall va, access, user
      ensures SameTranslation(Translation(BusOf(m), Config(true, s.root, user), va, access), Meant(s.leaves, va, access, user))
    {
      TranslationIsSpaceTranslation(m, s, low, high, va, access, user);
      var key := KeyOf(va);
      assert key in s.leaves ==> key.0 in s.l1 && (key.0, key.1) in s.l0;
    }
  }

  // ---------------------------------------------------------------- what a failed call leaves behind

  /** The call can hang a level-1 table and then has no page for the level-0 table. */
  predicate Strands(s: Space, va: Word, pa: Word, room: bool) {
    s.root % PAGE == 0 && va % PAGE == 0 && pa % PAGE == 0 && TablesMissing(s, va) == 2 && room
  }

  ghost predicate SameTranslations(m: Memory, m': Memory, root: Word) {
    forall va, access, user ::
      Translation(BusOf(m'), Config(true, root, user), va, access) == Translation(BusOf(m), Config(true, root, user), va, access)
  }

  /** Memories that hold the same space are translated alike. */
  lemma SameSpaceSameTranslations(m: Memory, m': Memory, s: Space, low: int, low': int, high: int)
    requires PagesOk(s, low, high) && PagesOk(s, low', high) && Holds(m, s) && Holds(m', s) && high <= 0x100_0000_0000_0000
    ensures SameTranslations(m, m', s.root)
  {
    hide Holds, PagesOk, SpaceTranslation, BusOf, Translation;
    forall va, access, user
      ensures Translation(BusOf(m'), Config(true, s.root, user), va, access) == Translation(BusOf(m), Config(true, s.root, user), va, access)
    {
      TranslationIsSpaceTranslation(m, s, low, high, va, access, user);
      TranslationIsSpaceTranslation(m', s, low', high, va, access, user);
    }
  }

  /** An added level-1 table shows in the auxiliary word of a fault. */
  lemma AddedTableShows(m: Memory, m': Memory, s: Space, low: int, low': int, high: int, i: nat, page: Word)
    requires PagesOk(s, low, high) && Holds(m, s) && i < 512 && i !in s.l1 && high <= 0x100_0000_0000_0000
    requires PagesOk(s.(l1 := s.l1[i := page]), low', high) && Holds(m', s.(l1 := s.l1[i := page]))
    ensures !SameTranslations(m, m', s.root)
  {
    hide Holds, SpaceTranslation, BusOf, Translation, Index;
    var va := StartOf(i);
    var s' := s.(l1 := s.l1[i := page]);
    StartIsCanonical(i);
    assert (i, KeyOf(va).1) !in s.l0;
    EmptyTableDeepensFault(s, i, page, va, Read, false);
    hide PagesOk;
    TranslationIsSpaceTranslation(m, s, low, high, va, Read, false);
    TranslationIsSpaceTranslation(m', s', low', high, va, Read, false);
    assert Translation(BusOf(m'), Config(true, s.root, false), va, Read) != Translation(BusOf(m), Config(true, s.root, false), va, Read);
  }

  /** A failed call changes some translation, if only the detail of a fault, exactly when it strands a
      table. */
  lemma FailureShowsExactlyWhen(m: Memory, m': Memory, s: Space, low: int, low': int, high: int, va: Word, pa: Word, room: bool, page: Word)
    requires PagesOk(s, low, high) && Holds(m, s) && high <= 0x100_0000_0000_0000
    requires
      var s' := if Strands(s, va, pa, room) then WithTable(s, Root, KeyOf(va).0, page) else s;
      PagesOk(s', low', high) && Holds(m', s')
    ensures SameTranslations(m, m', s.root) <==> !Strands(s, va, pa, room)
  {
    hide Holds, PagesOk, Index, SameTranslations;
    if Strands(s, va, pa, room) {
      AddedTableShows(m, m', s, low, low', high, KeyOf(va).0, page);
    } else {
      SameSpaceSameTranslations(m, m', s, low, low', high);
    }
  }

  // ---------------------------------------------------------------- the builder and its allocator

  class Builder {
    var mem: Memory
    var cursor: Word
    const memBase: Word
    const memSize: Word
    /** The address space the tables in memory stand for. */
    ghost var space: Space

    ghost predicate Valid()
      reads this
    {
      && memBase + memSize <= 0x100_0000_0000_0000
      && forall a: Word :: memBase <= a < memBase + memSize ==> a in mem
    }

    /** No table page lies below this address. */
    ghost function Low(): Word
      reads this
    {
      if cursor > memBase then cursor else memBase
    }

    /** The allocator can hand out n more pages. */
    predicate Room(n: nat)
      reads this
    {
      n > 0 ==> memSize >= PAGE && memBase + n * PAGE <= cursor <= memBase + memSize
    }

    ghost predicate Built()
      reads this
    {
      && Valid() && cursor % PAGE == 0
      && PagesOk(space, Low(), memBase + memSize) && Holds(mem, space)
    }

    constructor (mem: Memory, memBase: Word, memSize: Word, cursor: Word)
      requires memBase + memSize <= 0x100_0000_0000_0000
      requires forall a: Word :: memBase <= a < memBase + memSize ==> a in mem
      ensures Valid() && this.mem == mem && this.memBase == memBase && this.memSize == memSize && this.cursor == cursor
    {
      this.mem := mem;
      this.memBase := memBase;
      this.memSize := memSize;
      this.cursor := cursor;
      this.space := Space(0, map[], map[], map[]);
    }

    method ZeroPage(page: Word)
      requires Valid() && memBase <= page && page + 4096 <= memBase + memSize
      modifies this`mem
      ensures Valid() && Zeroed(old(mem), mem, page)
    {
      hide Read64, Write64, ZeroedTo;
      var off := 0;
      assert ZeroedTo(mem, mem, page, 0) by {
        NothingZeroed(mem, page);
      }
      while off < 4096
        invariant 0 <= off <= 4096 && off % 8 == 0
        invariant ZeroedTo(old(mem), mem, page, off) && mem.Keys == old(mem.Keys)
      {
        ZeroesNext(old(mem), mem, page, off);
        WriteKeys(mem, page + off, 0);
        mem := Write64(mem, page + off, 0);
        off := off + 8;
      }
    }

    method AllocatePage() returns (ok: bool, page: Word)
      requires Valid()
      modifies this`mem, this`cursor
      ensures Valid()
      ensures ok <==> old(Room(1))
      ensures cursor <= old(cursor) && cursor % PAGE == old(cursor) % PAGE
      ensures !ok ==> mem == old(mem)
      ensures !ok && old(cursor) <= memBase + memSize ==> !Room(1)
      ensures ok ==>
        && page == cursor && memBase <= page && page + 4096 <= memBase + memSize
        && page + 4096 == old(cursor)
        && Zeroed(old(mem), mem, page)
    {
      page := 0;
      if memSize < PAGE || cursor < memBase + PAGE {
        return false, page;
      }
      cursor := cursor - PAGE;
      if cursor < memBase || cursor + PAGE > memBase + memSize {
        return false, page;
      }
      page := cursor;
      ZeroPage(page);
      return true, page;
    }

    method CreateRoot() returns (ok: bool, root: Word)
      requires Valid()
      modifies this
      ensures Valid()
      ensures ok <==> old(Room(1))
      ensures ok ==> space == Space(root, map[], map[], map[]) && root == cursor == old(cursor) - PAGE
      ensures ok && root % PAGE == 0 ==> Built()
    {
      ok, root := AllocatePage();
      if !ok {
        return false, 0;
      }
      ghost var before := mem;
      ZeroPage(root);
      space := Space(root, map[], map[], map[]);
      if root % PAGE == 0 {
        EmptySpaceHolds(before, mem, root);
      }
    }

    method EnsureNextLevel(table: Word, index: nat, ghost n: Node) returns (ok: bool, next: Word)
      requires Built() && Present(space, n) && !n.L0? && table == PageOf(space, n) && index < 512
      modifies this`mem, this`cursor, this`space
      ensures Built()
      ensures ok <==> old(Present(space, Child(n, index))) || old(Room(1))
      ensures ok ==> cursor == if old(Present(space, Child(n, index))) then old(cursor) else old(cursor) - PAGE
      ensures ok && !old(Present(space, Child(n, index))) ==> next == cursor
      ensures cursor <= old(cursor) && (!ok && old(cursor) <= memBase + memSize ==> !Room(1))
      ensures !ok ==> space == old(space)
      ensures ok ==> space == WithTable(old(space), n, index, next)
      ensures ok ==> Present(space, Child(n, index)) && PageOf(space, Child(n, index)) == next
    {
      hide Read64, Write64, TablePte, Target, V, Zeroed, Holds, PagesOk;
      TableInRam(mem, space, Low(), memBase + memSize, n, index);
      var pteAddr: Word := table + index * 8;
      var pte := Read64(mem, pteAddr);
      EntryDecodes(mem, space, Low(), memBase + memSize, n, index);
      if V(pte) {
        return true, Target(pte);
      }
      ghost var low, mem0, keys := Low(), mem, mem.Keys;
      var page;
      ok, page := AllocatePage();
      if !ok {
        LowerIsFine(space, low, Low(), memBase + memSize);
        return false, 0;
      }
      ghost var mem1 := mem;
      ZeroPage(page);
      ZeroedTwice(mem0, mem1, mem, page);
      ZeroedInRam(mem0, mem, page, pteAddr);
      AddTable(mem0, mem, space, low, memBase + memSize, n, index, page);
      WriteKeys(mem, pteAddr, TablePte(page));
      mem := Write64(mem, pteAddr, TablePte(page));
      space := WithTable(space, n, index, page);
      return true, page;
    }

    method WriteLeaf(l0: Word, idx0: nat, ghost key: Key, mapping: Mapping)
      requires Built() && Present(space, L0(key.0, key.1)) && PageOf(space, L0(key.0, key.1)) == l0
      requires idx0 == key.2 < 512 && mapping.frame % PAGE == 0
      modifies this`mem, this`space
      ensures Built() && space == old(space).(leaves := old(space).leaves[key := mapping])
    {
      hide Read64, Write64, LeafPte, Holds, PagesOk, InRam;
      TableInRam(mem, space, Low(), memBase + memSize, L0(key.0, key.1), idx0);
      var leafAddr: Word := l0 + idx0 * 8;
      MapLeaf(mem, space, Low(), memBase + memSize, key, mapping);
      WriteKeys(mem, leafAddr, LeafPte(mapping));
      mem := Write64(mem, leafAddr, LeafPte(mapping));
      space := space.(leaves := space.leaves[key := mapping]);
    }

    /** The level-0 table of an address, with the tables above it. */
    method EnsureTables(root: Word, va: Word) returns (ok: bool, l0: Word)
      requires Built() && root == space.root
      modifies this`mem, this`cursor, this`space
      ensures Built() && space.root == root && space.leaves == old(space.leaves)
      ensures ok <==> old(Room(TablesMissing(space, va)))
      ensures cursor <= old(cursor) && (!ok && old(cursor) <= memBase + memSize ==> !Room(1))
      ensures ok ==> Present(space, L0(KeyOf(va).0, KeyOf(va).1)) && PageOf(space, L0(KeyOf(va).0, KeyOf(va).1)) == l0
      ensures !ok ==> space == if old(TablesMissing(space, va) == 2 && Room(1)) then WithTable(old(space), Root, KeyOf(va).0, old(cursor) - PAGE) else old(space)
    {
      hide Read64, Write64, LeafPte, Holds, PagesOk, Index, InRam, Valid;
      l0 := 0;
      NoOrphan(space, Low(), memBase + memSize, KeyOf(va).0, KeyOf(va).1);
      var l1;
      ok, l1 := EnsureNextLevel(root, KeyOf(va).0, Root);
      if !ok {
        return false, l0;
      }
      ok, l0 := EnsureNextLevel(l1, KeyOf(va).1, L1(KeyOf(va).0));
    }

    /** Maps one page. Success records the mapping; failure changes no mapping, and no fault's detail
        either unless it strands a level-1 table. Either way the tables in memory stand for the new
        space. */
    method Map4K(root: Word, va: Word, pa: Word, read: bool, write: bool, execute: bool, global: bool) returns (ok: bool)
      requires Valid() && root == space.root && (root % PAGE == 0 ==> Built())
      modifies this`mem, this`cursor, this`space
      ensures Valid() && space.root == root && (root % PAGE == 0 ==> Built())
      ensures ok <==> root % PAGE == 0 && va % PAGE == 0 && pa % PAGE == 0 && old(Room(TablesMissing(space, va)))
      ensures ok ==> space.leaves == old(space.leaves)[KeyOf(va) := Mapping(pa, read, write, execute, global)]
      ensures !ok ==> space == if Strands(old(space), va, pa, old(Room(1))) then WithTable(old(space), Root, KeyOf(va).0, old(cursor) - PAGE) else old(space)
      ensures !ok ==> space.leaves == old(space.leaves)
      ensures !ok ==> (SameTranslations(old(mem), mem, root) <==> !Strands(old(space), va, pa, old(Room(1))))
      ensures !(root % PAGE == 0 && va % PAGE == 0 && pa % PAGE == 0) ==> mem == old(mem)
      ensures cursor <= old(cursor)
      ensures !ok && root % PAGE == 0 && va % PAGE == 0 && pa % PAGE == 0 && old(cursor) <= memBase + memSize ==> !Room(1)
    {
      if root % PAGE != 0 || va % PAGE != 0 || pa % PAGE != 0 {
        return false;
      }
      hide Read64, Write64, LeafPte, Holds, PagesOk, KeyOf, InRam, SameTranslations, WithTable, TablesMissing, Low, Present;
      ghost var s, m, low, room, page := space, mem, Low(), Room(1), if cursor >= PAGE then cursor - PAGE else 0;
      var l0;
      ok, l0 := EnsureTables(root, va);
      if !ok {
        FailureShowsExactlyWhen(m, mem, s, low, Low(), memBase + memSize, va, pa, room, page);
        return false;
      }
      WriteLeaf(l0, KeyOf(va).2, KeyOf(va), Mapping(pa, read, write, execute, global));
      return true;
    }

    /** A client's sequence of calls on a new root, up to the first that fails: whatever it got done, the
        tables in memory mean exactly the mappings of those calls, the last one of each page counting. */
    method MapAll(calls: seq<Call>) returns (root: Word, done: nat)
      requires Valid() && cursor % PAGE == 0
      modifies this
      ensures Valid() && done <= |calls|
      ensures old(Room(1)) ==> Built() && root == space.root && Means(mem, root, Recorded(calls[..done]))
      ensures done < |calls| ==>
        var c := calls[done];
        !old(Room(1)) || c.va % PAGE != 0 || c.mapping.frame % PAGE != 0 || !Room(1)
    {
      hide Read64, Holds, PagesOk, InRam, SameTranslations, Means, KeyOf, Meant, WithTable;
      done := 0;
      var ok;
      ok, root := CreateRoot();
      if !ok {
        return root, done;
      }
      while done < |calls|
        invariant done <= |calls| && Built() && root == space.root && root % PAGE == 0
        invariant cursor <= memBase + memSize && space.leaves == Recorded(calls[..done])
      {
        var Call(va, m) := calls[done];
        ok := Map4K(root, va, m.frame, m.read, m.write, m.execute, m.global);
        if !ok {
          break;
        }
        assert calls[..done + 1][..done] == calls[..done];
        done := done + 1;
      }
      SpaceMeans(mem, space, Low(), memBase + memSize);
    }
  }
}
