/**
 The four-level page tables of kernel/src/vmm.c as a data structure in physical memory:
 the walk the processor performs, the shape the kernel keeps the tables in, and the
 effect on every page of each store the kernel makes into a table.
 */
module PageTables {
  import opened Bits

  /** What a physical frame currently holds: 512 table entries, or 4096 bytes of data. */
  datatype Page = Table(entries: seq<Word>) | Data(bytes: seq<Byte>)

  /** Physical memory, by frame number. */
  type Memory = map<nat, Page>

  /** Pages of the 48-bit virtual address space. */
  const PAGES := 0x10_0000_0000

  const PRESENT := 1
  const WRITE := 2
  const USER := 4

  /** A page named by its indices into the PML4, the PDPT, the PD and the PT. */
  type Path = p: seq<nat> | |p| == 4 && (forall i | 0 <= i < 4 :: p[i] < 512) witness [0, 0, 0, 0]

  /** The index fields of an address; the bits above bit 47 are ignored. */
  function PathOf(page: nat): Path {
    [page / 0x800_0000 % 512, page / 0x4_0000 % 512, page / 512 % 512, page % 512]
  }

  function PageOf(path: Path): (page: nat)
    ensures page < PAGES
  {
    path[0] * 0x800_0000 + path[1] * 0x4_0000 + path[2] * 512 + path[3]
  }

  /** Appending one 9-bit digit, and taking it off again. */
  lemma Digit(x: nat, d: nat)
    requires d < 512
    ensures (x * 512 + d) / 512 == x && (x * 512 + d) % 512 == d
  {
  }

  lemma Quotients(page: nat)
    ensures page / 0x4_0000 == page / 512 / 512 && page / 0x800_0000 == page / 512 / 512 / 512
  {
    var a := page / 512; var b := a / 512; var c := b / 512;
    assert page == b * 0x4_0000 + (a % 512 * 512 + page % 512);
    assert page == c * 0x800_0000 + (b % 512 * 0x4_0000 + a % 512 * 512 + page % 512);
  }

  /** Pages and paths correspond one to one. */
  lemma PathRoundTrip(page: nat)
    ensures PageOf(PathOf(page)) == page % PAGES
  {
    Quotients(page);
    var a := page / 512; var b := a / 512; var c := b / 512;
    var r := PageOf([c % 512, b % 512, a % 512, page % 512]);
    assert page == c / 512 * 0x10_0000_0000 + r;
    Remainder(c / 512, r);
  }

  lemma Remainder(q: nat, r: nat)
    requires r < PAGES
    ensures (q * 0x10_0000_0000 + r) % PAGES == r
  {
  }

  lemma PageRoundTrip(path: Path)
    ensures PathOf(PageOf(path)) == path
  {
    Quotients(PageOf(path));
    var x := path[0] * 512 + path[1];
    var y := x * 512 + path[2];
    assert PageOf(path) == y * 512 + path[3];
    Digit(path[0], path[1]); Digit(x, path[2]); Digit(y, path[3]);
  }

  lemma PathIs(path: Path, page: nat)
    requires page < PAGES
    ensures path == PathOf(page) <==> PageOf(path) == page
  {
    PageRoundTrip(path); PathRoundTrip(page);
  }

  lemma SamePath(p: nat, r: nat)
    ensures PathOf(p) == PathOf(r) <==> p % PAGES == r % PAGES
  {
    PathRoundTrip(p); PathRoundTrip(r);
    PageRoundTrip(PathOf(p)); PageRoundTrip(PathOf(r));
  }

  /** Pages within the address space are told apart by their paths. */
  lemma SamePage(p: nat, r: nat)
    requires p < PAGES && r < PAGES
    ensures PathOf(p) == PathOf(r) <==> p == r
  {
    SamePath(p, r);
    Small(p);
    Small(r);
  }

  lemma Small(p: nat)
    requires p < PAGES
    ensures p % PAGES == p
  {
  }

  /** The fields of a virtual address, as the processor takes it apart: four 9-bit indices above a 12-bit offset. */
  lemma AddressFields(virt: Word)
    ensures var path := PathOf(virt / 4096);
            virt % 0x1_0000_0000_0000 ==
              path[0] * 0x80_0000_0000 + path[1] * 0x4000_0000 + path[2] * 0x20_0000 + path[3] * 0x1000 + virt % 0x1000
  {
    var page := virt / 4096;
    PathRoundTrip(page);
    Wraps(virt, page);
  }

  lemma Wraps(virt: Word, page: nat)
    requires page == virt / 4096
    ensures virt % 0x1_0000_0000_0000 == page % PAGES * 4096 + virt % 4096
  {
    var q, r := page / PAGES, page % PAGES;
    assert virt == q * 0x1_0000_0000_0000 + (r * 4096 + virt % 4096);
  }

  predicate Present(e: Word) { e % 2 == 1 }
  predicate Writable(e: Word) { e / 2 % 2 == 1 }
  predicate User(e: Word) { e / 4 % 2 == 1 }
  predicate Huge(e: Word) { e / 128 % 2 == 1 }
  function FrameOf(e: Word): nat { e / 4096 }

  predicate IsTable(mem: Memory, t: nat) {
    t in mem && mem[t].Table? && |mem[t].entries| == 512
  }

  datatype Translation = Fault | Mapped(frame: nat, writable: bool, user: bool)

  /**
   The processor's walk along the indices `rest`: every level must be present, and the rights of all levels are
   ANDed.
   */
  function Walk(mem: Memory, table: nat, rest: seq<nat>): Translation
    requires 1 <= |rest| <= 4 && forall i | 0 <= i < |rest| :: rest[i] < 512
    decreases |rest|
  {
    if !IsTable(mem, table) then Fault
    else
      var e := mem[table].entries[rest[0]];
      if !Present(e) then Fault
      else if |rest| == 1 then Mapped(FrameOf(e), Writable(e), User(e))
      else if |rest| < 4 && Huge(e) then
        Mapped(FrameOf(e) + (if |rest| == 3 then rest[1] * 512 + rest[2] else rest[1]), Writable(e), User(e))
      else
        match Walk(mem, FrameOf(e), rest[1..])
        case Fault => Fault
        case Mapped(f, w, u) => Mapped(f, w && Writable(e), u && User(e))
  }

  /** What one leaf entry says on its own. */
  function Decode(e: Word): Translation {
    if Present(e) then Mapped(FrameOf(e), Writable(e), User(e)) else Fault
  }

  // ---- The tree the kernel keeps ----

  /** Which frame holds the table reached by a sequence of indices; the PML4 is at []. */
  type Tree = map<seq<nat>, nat>

  predicate IsLink(e: Word) {
    e % 4096 == PRESENT + WRITE || e % 4096 == PRESENT + WRITE + USER
  }

  ghost predicate EntryOk(mem: Memory, tree: Tree, q: seq<nat>, i: nat)
    requires q in tree && IsTable(mem, tree[q]) && i < 512
  {
    var e := mem[tree[q]].entries[i];
    && (Present(e) <==> q + [i] in tree)
    && (if Present(e) then FrameOf(e) == tree[q + [i]] && IsLink(e) else e == 0)
  }

  /** The table at `q` hangs from a table above it, or is the PML4. */
  predicate Rooted(tree: Tree, q: seq<nat>) {
    |q| > 0 ==> q[..|q| - 1] in tree && q[|q| - 1] < 512
  }

  /** The tables form an unshared tree: one frame per place, one place per frame, parents linked to children. */
  ghost predicate TreeInv(mem: Memory, tree: Tree) {
    && [] in tree
    && (forall q | q in tree :: |q| <= 3 && IsTable(mem, tree[q]))
    && (forall q, r | q in tree && r in tree && tree[q] == tree[r] :: q == r)
    && (forall q {:trigger Rooted(tree, q)} | q in tree :: Rooted(tree, q))
    && (forall q, i: nat | q in tree && |q| < 3 && i < 512 :: EntryOk(mem, tree, q, i))
  }

  /** The entry a page's walk reads at `depth`, or 0 when there is no table there. */
  function EntryAt(mem: Memory, tree: Tree, path: Path, depth: nat): Word
    requires depth <= 3
  {
    var q := path[..depth];
    if q in tree && IsTable(mem, tree[q]) then mem[tree[q]].entries[path[depth]] else 0
  }

  function Leaf(mem: Memory, tree: Tree, path: Path): Word {
    EntryAt(mem, tree, path, 3)
  }

  /** A page its leaf opens to user mode is open at every level above. */
  ghost predicate UserInv(mem: Memory, tree: Tree) {
    forall path: Path, d | 0 <= d < 3 ::
      Present(Leaf(mem, tree, path)) && User(Leaf(mem, tree, path)) ==> User(EntryAt(mem, tree, path, d))
  }

  lemma Descend(path: Path, depth: nat)
    requires depth <= 3
    ensures path[..depth + 1] == path[..depth] + [path[depth]]
  {
  }

  lemma AtRoot(path: Path)
    ensures path[..0] == []
  {
  }

  lemma SamePrefix(p: Path, r: Path, depth: nat)
    requires depth <= 3
    ensures p[..depth + 1] == r[..depth + 1] <==> p[..depth] == r[..depth] && p[depth] == r[depth]
  {
    Descend(p, depth);
    Descend(r, depth);
  }

  /** A link of the tree is present, writable and not huge. */
  lemma LinkBits(e: Word)
    requires IsLink(e)
    ensures Present(e) && Writable(e) && !Huge(e) && (User(e) <==> e % 4096 == PRESENT + WRITE + USER)
  {
    FlagBits(e);
  }

  /** The flags of an entry are in its low twelve bits. */
  lemma FlagBits(e: Word)
    ensures e % 2 == e % 4096 % 2 && e / 2 % 2 == e % 4096 / 2 % 2 && e / 4 % 2 == e % 4096 / 4 % 2
    ensures e / 128 % 2 == e % 4096 / 128 % 2
  {
    var q, r := e / 4096, e % 4096;
    Shift2(q, r); Shift4(q, r); Shift128(q, r);
    EvenPlus(2048 * q, r); EvenPlus(1024 * q, r / 2); EvenPlus(512 * q, r / 4); EvenPlus(16 * q, r / 128);
  }

  lemma Shift2(q: nat, r: nat)
    ensures (4096 * q + r) / 2 == 2 * (1024 * q) + r / 2
  {
  }

  lemma Shift4(q: nat, r: nat)
    ensures (4096 * q + r) / 4 == 2 * (512 * q) + r / 4
  {
  }

  lemma Shift128(q: nat, r: nat)
    ensures (4096 * q + r) / 128 == 2 * (16 * q) + r / 128
  {
  }

  lemma EvenPlus(a: nat, b: nat)
    ensures (2 * a + b) % 2 == b % 2
  {
  }

  /** One step down a page's path: present means there is a table below. */
  lemma EntrySteps(mem: Memory, tree: Tree, path: Path, depth: nat)
    requires TreeInv(mem, tree) && depth < 3 && path[..depth] in tree
    ensures var e := EntryAt(mem, tree, path, depth);
            && e == mem[tree[path[..depth]]].entries[path[depth]]
            && (Present(e) <==> path[..depth + 1] in tree)
            && (if Present(e) then FrameOf(e) == tree[path[..depth + 1]] && IsLink(e) else e == 0)
  {
    Descend(path, depth);
    assert EntryOk(mem, tree, path[..depth], path[depth]);
  }

  /** Without a table at some depth of a page's path there is none below either. */
  lemma {:induction false} NoTableNoLeaf(mem: Memory, tree: Tree, path: Path, depth: nat)
    requires TreeInv(mem, tree) && depth <= 3 && path[..depth] !in tree
    ensures Leaf(mem, tree, path) == 0 && path[..3] !in tree
    decreases 3 - depth
  {
    if depth < 3 {
      assert path[..depth + 1][..depth] == path[..depth];
      assert path[..depth + 1] in tree ==> Rooted(tree, path[..depth + 1]);
      NoTableNoLeaf(mem, tree, path, depth + 1);
    }
  }

  /** A page table comes with the tables above it. */
  lemma TablesPresent(mem: Memory, tree: Tree, path: Path)
    requires TreeInv(mem, tree) && path[..3] in tree
    ensures TablesOf(path) <= tree.Keys
  {
    if path[..1] !in tree { NoTableNoLeaf(mem, tree, path, 1); }
    if path[..2] !in tree { NoTableNoLeaf(mem, tree, path, 2); }
  }

  /** Are all entries of a page's path, from `depth` down to the level above the leaf, open to user mode? */
  predicate PathUser(mem: Memory, tree: Tree, path: Path, depth: nat)
    requires depth <= 3
    decreases 3 - depth
  {
    depth == 3 || (User(EntryAt(mem, tree, path, depth)) && PathUser(mem, tree, path, depth + 1))
  }

  /** The walk from any table on a page's path ends at the page's leaf, with the user rights of the path ANDed. */
  lemma {:induction false} WalkFollows(mem: Memory, tree: Tree, path: Path, depth: nat)
    requires TreeInv(mem, tree) && depth <= 3 && path[..depth] in tree
    ensures Walk(mem, tree[path[..depth]], path[depth..]) ==
            var leaf := Leaf(mem, tree, path);
            if !Present(leaf) then Fault
            else Mapped(FrameOf(leaf), Writable(leaf), User(leaf) && PathUser(mem, tree, path, depth))
    decreases 3 - depth
  {
    if depth < 3 {
      var e := EntryAt(mem, tree, path, depth);
      EntrySteps(mem, tree, path, depth);
      assert path[depth..][1..] == path[depth + 1..];
      if path[..depth + 1] in tree {
        LinkBits(e);
        WalkFollows(mem, tree, path, depth + 1);
      } else {
        NoTableNoLeaf(mem, tree, path, depth + 1);
      }
    }
  }

  lemma {:induction false} UserPath(mem: Memory, tree: Tree, path: Path, depth: nat)
    requires UserInv(mem, tree) && depth <= 3
    requires Present(Leaf(mem, tree, path)) && User(Leaf(mem, tree, path))
    ensures PathUser(mem, tree, path, depth)
    decreases 3 - depth
  {
    if depth < 3 { UserPath(mem, tree, path, depth + 1); }
  }

  /** The rights the processor computes for a page are exactly the rights its leaf entry names. */
  lemma WalkIsLeaf(mem: Memory, tree: Tree, path: Path)
    requires TreeInv(mem, tree) && UserInv(mem, tree)
    ensures Walk(mem, tree[[]], path) == Decode(Leaf(mem, tree, path))
  {
    assert path[..0] == [] && path[0..] == path;
    WalkFollows(mem, tree, path, 0);
    if Present(Leaf(mem, tree, path)) && User(Leaf(mem, tree, path)) { UserPath(mem, tree, path, 0); }
  }

  // ---- The stores vmm_map_page makes ----

  function SetEntry(mem: Memory, t: nat, i: nat, e: Word): Memory
    requires IsTable(mem, t) && i < 512
  {
    mem[t := Table(mem[t].entries[i := e])]
  }

  /** A store into the table at `path[..depth]` is seen by the pages that share the path that far, at that depth. */
  lemma SetEntrySeen(mem: Memory, tree: Tree, path: Path, depth: nat, e: Word, p: Path, d: nat)
    requires TreeInv(mem, tree) && depth <= 3 && d <= 3 && path[..depth] in tree
    ensures EntryAt(SetEntry(mem, tree[path[..depth]], path[depth], e), tree, p, d) ==
            if d == depth && p[..d + 1] == path[..d + 1] then e else EntryAt(mem, tree, p, d)
  {
    SamePrefix(p, path, depth);
  }

  /** Storing a leaf keeps the tree. */
  lemma SetLeaf(mem: Memory, tree: Tree, path: Path, e: Word)
    requires TreeInv(mem, tree) && path[..3] in tree
    ensures TreeInv(SetEntry(mem, tree[path[..3]], path[3], e), tree)
  {
    var mem' := SetEntry(mem, tree[path[..3]], path[3], e);
    forall q, i: nat | q in tree && |q| < 3 && i < 512
      ensures EntryOk(mem', tree, q, i)
    {
      assert EntryOk(mem, tree, q, i);
    }
  }

  /** So does rewriting a link that still leads to the same table. */
  lemma SetLink(mem: Memory, tree: Tree, path: Path, depth: nat, e: Word)
    requires TreeInv(mem, tree) && depth < 3
    requires path[..depth] in tree && path[..depth + 1] in tree
    requires FrameOf(e) == tree[path[..depth + 1]] && IsLink(e)
    ensures TreeInv(SetEntry(mem, tree[path[..depth]], path[depth], e), tree)
  {
    var mem' := SetEntry(mem, tree[path[..depth]], path[depth], e);
    Descend(path, depth);
    LinkBits(e);
    forall q, i: nat | q in tree && |q| < 3 && i < 512
      ensures EntryOk(mem', tree, q, i)
    {
      assert EntryOk(mem, tree, q, i);
    }
  }

  function ZeroTable(): Page {
    Table(seq(512, _ => 0))
  }

  /** May an empty table in frame `f` be linked for `path` below its table at `depth`, by entry `e`? */
  ghost predicate Linkable(mem: Memory, tree: Tree, path: Path, depth: nat, f: nat, e: Word) {
    && TreeInv(mem, tree) && depth < 3
    && path[..depth] in tree && path[..depth + 1] !in tree
    && f !in tree.Values
    && FrameOf(e) == f && IsLink(e)
  }

  function LinkMem(mem: Memory, tree: Tree, path: Path, depth: nat, f: nat, e: Word): Memory
    requires depth < 3 && path[..depth] in tree && IsTable(mem, tree[path[..depth]])
    requires f != tree[path[..depth]]
  {
    SetEntry(mem[f := ZeroTable()], tree[path[..depth]], path[depth], e)
  }

  lemma LinkEntryOk(mem: Memory, tree: Tree, path: Path, depth: nat, f: nat, e: Word, q: seq<nat>, i: nat)
    requires Linkable(mem, tree, path, depth, f, e)
    requires q in tree && |q| < 3 && i < 512
    ensures EntryOk(LinkMem(mem, tree, path, depth, f, e), tree[path[..depth + 1] := f], q, i)
  {
    Descend(path, depth);
    LinkBits(e);
    assert EntryOk(mem, tree, q, i);
    assert q != path[..depth] ==> tree[q] != tree[path[..depth]];
    assert tree[q] != f;
    assert q + [i] == path[..depth] + [path[depth]] <==> q == path[..depth] && i == path[depth] by {
      assert (q + [i])[..|q|] == q && (path[..depth] + [path[depth]])[..depth] == path[..depth];
    }
  }

  /** Linking an empty table into an absent entry keeps the tree. */
  lemma LinkKeepsTree(mem: Memory, tree: Tree, path: Path, depth: nat, f: nat, e: Word)
    requires Linkable(mem, tree, path, depth, f, e)
    ensures TreeInv(LinkMem(mem, tree, path, depth, f, e), tree[path[..depth + 1] := f])
  {
    var mem', tree' := LinkMem(mem, tree, path, depth, f, e), tree[path[..depth + 1] := f];
    Descend(path, depth);
    forall q, i: nat | q in tree' && |q| < 3 && i < 512
      ensures IsTable(mem', tree'[q]) && EntryOk(mem', tree', q, i)
    {
      if q != path[..depth + 1] {
        LinkEntryOk(mem, tree, path, depth, f, e, q, i);
      } else {
        assert (q + [i])[..|q|] == q;
        assert q + [i] in tree ==> Rooted(tree, q + [i]);
      }
    }
    forall q | q in tree'
      ensures Rooted(tree', q)
    {
      if q == path[..depth + 1] { assert q[..depth] == path[..depth]; } else { assert Rooted(tree, q); }
    }
  }

  /** Linking an empty table changes no entry of any page's path but the one linked. */
  lemma LinkSeen(mem: Memory, tree: Tree, path: Path, depth: nat, f: nat, e: Word, p: Path, d: nat)
    requires Linkable(mem, tree, path, depth, f, e) && d <= 3
    ensures EntryAt(LinkMem(mem, tree, path, depth, f, e), tree[path[..depth + 1] := f], p, d) ==
            if d == depth && p[..d + 1] == path[..d + 1] then e else EntryAt(mem, tree, p, d)
  {
    SamePrefix(p, path, depth);
    var q := p[..d];
    if q in tree {
      assert tree[q] != f;
      assert q != path[..depth] ==> tree[q] != tree[path[..depth]];
    }
  }

  // ---- Relations between two states of the tables ----

  /** The plain map the tables stand for: the leaf entry of every page. */
  ghost function Leaves(mem: Memory, tree: Tree): imap<Path, Word> {
    imap p: Path :: Leaf(mem, tree, p)
  }

  ghost predicate TreeGrows(tree: Tree, tree': Tree) {
    forall q | q in tree :: q in tree' && tree'[q] == tree[q]
  }

  /** The places of the three tables below the PML4 that a page needs. */
  function TablesOf(path: Path): set<seq<nat>> {
    set d | 1 <= d <= 3 :: path[..d]
  }

  lemma SetLinkEffect(mem: Memory, tree: Tree, path: Path, depth: nat, e: Word)
    requires TreeInv(mem, tree) && UserInv(mem, tree) && depth < 3
    requires path[..depth] in tree && path[..depth + 1] in tree
    requires FrameOf(e) == tree[path[..depth + 1]] && IsLink(e)
    requires User(EntryAt(mem, tree, path, depth)) ==> User(e)
    ensures var mem' := SetEntry(mem, tree[path[..depth]], path[depth], e);
            && TreeInv(mem', tree) && UserInv(mem', tree)
            && Leaves(mem', tree) == Leaves(mem, tree)
            && EntryAt(mem', tree, path, depth) == e
            && (forall d | 0 <= d < depth :: EntryAt(mem', tree, path, d) == EntryAt(mem, tree, path, d))
  {
    var mem' := SetEntry(mem, tree[path[..depth]], path[depth], e);
    SetLink(mem, tree, path, depth, e);
    forall p: Path, d | 0 <= d <= 3
      ensures EntryAt(mem', tree, p, d) ==
              if d == depth && p[..d + 1] == path[..d + 1] then e else EntryAt(mem, tree, p, d)
    {
      SetEntrySeen(mem, tree, path, depth, e, p, d);
    }
    forall p: Path, d | 0 <= d < 3 && User(EntryAt(mem, tree, p, d))
      ensures User(EntryAt(mem', tree, p, d))
    {
      SamePrefix(p, path, d);
    }
  }

  lemma LinkEffect(mem: Memory, tree: Tree, path: Path, depth: nat, f: nat, e: Word)
    requires Linkable(mem, tree, path, depth, f, e) && UserInv(mem, tree)
    ensures var mem', tree' := LinkMem(mem, tree, path, depth, f, e), tree[path[..depth + 1] := f];
            && TreeInv(mem', tree') && UserInv(mem', tree')
            && Leaves(mem', tree') == Leaves(mem, tree)
            && EntryAt(mem', tree', path, depth) == e
            && (forall d | 0 <= d < depth :: EntryAt(mem', tree', path, d) == EntryAt(mem, tree, path, d))
  {
    var mem', tree' := LinkMem(mem, tree, path, depth, f, e), tree[path[..depth + 1] := f];
    LinkKeepsTree(mem, tree, path, depth, f, e);
    EntrySteps(mem, tree, path, depth);
    forall p: Path, d | 0 <= d <= 3
      ensures EntryAt(mem', tree', p, d) ==
              if d == depth && p[..d + 1] == path[..d + 1] then e else EntryAt(mem, tree, p, d)
    {
      LinkSeen(mem, tree, path, depth, f, e, p, d);
    }
    forall p: Path, d | 0 <= d < 3 && User(EntryAt(mem, tree, p, d))
      ensures User(EntryAt(mem', tree', p, d))
    {
      SamePrefix(p, path, d);
    }
  }

  /** Stores outside the tables change no entry. */
  lemma SameTables(mem: Memory, mem': Memory, tree: Tree)
    requires TreeInv(mem, tree) && UserInv(mem, tree)
    requires forall q | q in tree :: tree[q] in mem' && mem'[tree[q]] == mem[tree[q]]
    ensures TreeInv(mem', tree) && UserInv(mem', tree) && Leaves(mem', tree) == Leaves(mem, tree)
  {
    forall q, i: nat | q in tree && |q| < 3 && i < 512
      ensures EntryOk(mem', tree, q, i)
    {
      assert EntryOk(mem, tree, q, i);
    }
    assert forall p: Path, d | 0 <= d <= 3 :: EntryAt(mem', tree, p, d) == EntryAt(mem, tree, p, d);
  }
}
