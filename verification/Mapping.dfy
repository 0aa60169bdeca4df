/**
 vmm_map_page and vmm_unmap_page as functions on the state they work on, and what they
 mean for every page: the tables refine a plain map from pages to leaf entries.
 */
module Mapping {
  import opened Bits
  import opened Frames
  import opened PageTables

  /** Physical memory, the places of the tables in it, and the frames still free. */
  datatype Space = Space(mem: Memory, tree: Tree, free: set<nat>)

  /** The tables form a tree in frames that are in use, and user rights reach the root. */
  ghost predicate Sound(s: Space) {
    match s
    case Space(mem, tree, free) =>
      && TreeInv(mem, tree) && UserInv(mem, tree)
      && (forall q | q in tree :: 0 < tree[q] < MAX_FRAMES && tree[q] !in free)
      && (forall f | f in free :: 0 < f < MAX_FRAMES)
  }

  /** The plain map the tables stand for: the leaf entry of every page. */
  ghost function PageMap(s: Space): imap<Path, Word> {
    Leaves(s.mem, s.tree)
  }

  /** What the processor makes of a page. */
  ghost function Translate(s: Space, path: Path): Translation {
    if [] in s.tree then Walk(s.mem, s.tree[[]], path) else Fault
  }

  ghost function Lowest(free: set<nat>): (f: nat)
    requires free != {}
    ensures f in free && forall g | g in free :: f <= g
  {
    var f :| f in free;
    if forall g | g in free :: f <= g then f
    else
      var h :| h in free && h < f;
      assert h in free - {f};
      var m := Lowest(free - {f});
      assert forall g | g in free :: g == f || g in free - {f};
      m
  }

  predicate LinkFlags(link: nat) {
    link == PRESENT + WRITE || link == PRESENT + WRITE + USER
  }

  /** One level of vmm_map_page: widen the link that is there, or hang an empty table from the lowest free frame. */
  ghost function Step(s: Space, path: Path, depth: nat, link: nat): Space
    requires Sound(s) && depth < 3 && path[..depth] in s.tree && LinkFlags(link)
  {
    var table := s.tree[path[..depth]];
    if path[..depth + 1] in s.tree then
      OrWord(s.mem[table].entries[path[depth]], link);
      s.(mem := SetEntry(s.mem, table, path[depth], BitOr(s.mem[table].entries[path[depth]], link)))
    else if s.free == {} then s
    else
      var f := Lowest(s.free);
      OrWord(f * 4096, link);
      Space(SetEntry(s.mem[f := ZeroTable()], table, path[depth], BitOr(f * 4096, link)),
            s.tree[path[..depth + 1] := f], s.free - {f})
  }

  /** ORing link flags into a link keeps its target and only adds rights. */
  lemma OrLink(e: Word, link: nat)
    requires IsLink(e) && LinkFlags(link)
    ensures BitOr(e, link) < WORD
    ensures var e': Word := BitOr(e, link);
            FrameOf(e') == FrameOf(e) && IsLink(e') && (User(e') <==> User(e) || link == PRESENT + WRITE + USER)
  {
    OrWord(e, link);
    OrSplits(e, link);
    OrZero(e / 4096);
    LinkBits(e);
    assert BitOr(3, 3) == 3 && BitOr(3, 7) == 7 && BitOr(7, 3) == 7 && BitOr(7, 7) == 7;
    LinkBits(BitOr(e, link));
  }

  /** The entry for a newly allocated table. */
  lemma NewLink(f: nat, link: nat)
    requires f < MAX_FRAMES && LinkFlags(link)
    ensures BitOr(f * 4096, link) < WORD
    ensures var e: Word := BitOr(f * 4096, link);
            FrameOf(e) == f && IsLink(e) && (link == PRESENT + WRITE + USER ==> User(e))
  {
    OrFlags(f * 4096, link);
    LinkBits(BitOr(f * 4096, link));
  }

  /** Tables were added at some of `places`, each in its own frame taken from the free ones. */
  ghost predicate Grown(s: Space, s': Space, places: set<seq<nat>>) {
    && TreeGrows(s.tree, s'.tree)
    && s'.tree.Keys <= s.tree.Keys + places
    && s'.free <= s.free
    && (forall q | q in s'.tree && q !in s.tree :: s'.tree[q] in s.free)
    && |s'.free| + |s'.tree.Keys| == |s.free| + |s.tree.Keys|
  }

  /** Only frames that were free or tables were written. */
  ghost predicate Untouched(s: Space, s': Space) {
    forall f: nat {:trigger SameFrame(s.mem, s'.mem, f)} | f !in s.tree.Values && f !in s.free ::
      SameFrame(s.mem, s'.mem, f)
  }

  predicate SameFrame(mem: Memory, mem': Memory, f: nat) {
    (f in mem <==> f in mem') && (f in mem ==> mem'[f] == mem[f])
  }

  /**
   What building tables does to all other state: no leaf changes, no user right is lost, no other frame is written.
   */
  ghost predicate Evolves(s: Space, s': Space, places: set<seq<nat>>) {
    && PageMap(s') == PageMap(s)
    && Grown(s, s', places)
    && Untouched(s, s')
  }

  lemma UntouchedTrans(s: Space, s': Space, s'': Space)
    requires Untouched(s, s') && Untouched(s', s'') && s'.tree.Values <= s.tree.Values + s.free && s'.free <= s.free
    ensures Untouched(s, s'')
  {
    forall f: nat | f !in s.tree.Values && f !in s.free
      ensures SameFrame(s.mem, s''.mem, f)
    {
      assert SameFrame(s.mem, s'.mem, f) && SameFrame(s'.mem, s''.mem, f);
    }
  }

  /** New tables came from the free frames. */
  lemma GrownValues(s: Space, s': Space, places: set<seq<nat>>)
    requires Grown(s, s', places)
    ensures s'.tree.Values <= s.tree.Values + s.free
  {
    forall f | f in s'.tree.Values
      ensures f in s.tree.Values || f in s.free
    {
      var q :| q in s'.tree && s'.tree[q] == f;
      if q in s.tree { assert s.tree[q] == f; }
    }
  }

  lemma EvolvesTrans(s: Space, s': Space, s'': Space, places: set<seq<nat>>, some: set<seq<nat>>)
    requires Evolves(s, s', places) && Evolves(s', s'', some) && some <= places
    ensures Evolves(s, s'', places)
  {
    GrownValues(s, s', places);
    UntouchedTrans(s, s', s'');
  }

  /** Are the links of a page above `depth` all open to user mode? */
  ghost predicate UserAbove(s: Space, path: Path, depth: nat)
    requires depth <= 3
  {
    forall d | 0 <= d < depth :: User(EntryAt(s.mem, s.tree, path, d))
  }

  lemma WidenEvolves(s: Space, path: Path, depth: nat, link: nat)
    requires Sound(s) && depth < 3 && path[..depth] in s.tree && LinkFlags(link) && path[..depth + 1] in s.tree
    ensures var s' := Step(s, path, depth, link);
            && Sound(s') && Evolves(s, s', {path[..depth + 1]})
            && (link == PRESENT + WRITE + USER && UserAbove(s, path, depth) ==> UserAbove(s', path, depth + 1))
  {
    EntrySteps(s.mem, s.tree, path, depth);
    var e := EntryAt(s.mem, s.tree, path, depth);
    OrLink(e, link);
    SetLinkEffect(s.mem, s.tree, path, depth, BitOr(e, link));
  }

  lemma GrownByOne(s: Space, mem': Memory, q: seq<nat>, f: nat)
    requires q !in s.tree && f in s.free
    ensures Grown(s, Space(mem', s.tree[q := f], s.free - {f}), {q})
  {
    assert s.tree[q := f].Keys == s.tree.Keys + {q};
  }

  ghost predicate CanHang(s: Space, path: Path, depth: nat, link: nat) {
    && Sound(s) && depth < 3 && path[..depth] in s.tree && LinkFlags(link)
    && path[..depth + 1] !in s.tree && s.free != {}
  }

  /** Hanging a table is the store of PageTables.LinkMem, from the lowest free frame. */
  lemma HangLinks(s: Space, path: Path, depth: nat, link: nat)
    requires CanHang(s, path, depth, link)
    ensures var f := Lowest(s.free);
            && BitOr(f * 4096, link) < WORD
            && Linkable(s.mem, s.tree, path, depth, f, BitOr(f * 4096, link))
            && (link == PRESENT + WRITE + USER ==> User(BitOr(f * 4096, link)))
            && Step(s, path, depth, link) == Space(LinkMem(s.mem, s.tree, path, depth, f, BitOr(f * 4096, link)),
                                                   s.tree[path[..depth + 1] := f], s.free - {f})
  {
    var f := Lowest(s.free);
    NewLink(f, link);
    assert f !in s.tree.Values;
  }

  lemma HangSound(s: Space, path: Path, depth: nat, link: nat)
    requires CanHang(s, path, depth, link)
    ensures var s' := Step(s, path, depth, link);
            && Sound(s')
            && (link == PRESENT + WRITE + USER && UserAbove(s, path, depth) ==> UserAbove(s', path, depth + 1))
  {
    HangLinks(s, path, depth, link);
    var f := Lowest(s.free);
    LinkEffect(s.mem, s.tree, path, depth, f, BitOr(f * 4096, link));
  }

  lemma HangUntouched(s: Space, path: Path, depth: nat, link: nat)
    requires CanHang(s, path, depth, link)
    ensures Untouched(s, Step(s, path, depth, link))
  {
    assert s.tree[path[..depth]] in s.tree.Values;
  }

  lemma HangEvolves(s: Space, path: Path, depth: nat, link: nat)
    requires CanHang(s, path, depth, link)
    ensures Evolves(s, Step(s, path, depth, link), {path[..depth + 1]})
  {
    HangLinks(s, path, depth, link);
    var f := Lowest(s.free);
    LinkEffect(s.mem, s.tree, path, depth, f, BitOr(f * 4096, link));
    GrownByOne(s, Step(s, path, depth, link).mem, path[..depth + 1], f);
    HangUntouched(s, path, depth, link);
  }

  lemma StepEvolves(s: Space, path: Path, depth: nat, link: nat)
    requires Sound(s) && depth < 3 && path[..depth] in s.tree && LinkFlags(link)
    ensures var s' := Step(s, path, depth, link);
            && Sound(s') && Evolves(s, s', {path[..depth + 1]})
            && (path[..depth + 1] !in s'.tree ==> s'.free == {})
            && (path[..depth + 1] in s'.tree && link == PRESENT + WRITE + USER && UserAbove(s, path, depth) ==>
                  UserAbove(s', path, depth + 1))
  {
    if path[..depth + 1] in s.tree {
      WidenEvolves(s, path, depth, link);
    } else if s.free != {} {
      HangSound(s, path, depth, link);
      HangEvolves(s, path, depth, link);
    }
  }

  lemma StepSound(s: Space, path: Path, depth: nat, link: nat)
    requires Sound(s) && depth < 3 && path[..depth] in s.tree && LinkFlags(link)
    ensures var s' := Step(s, path, depth, link);
            Sound(s') && [] in s.tree && [] in s'.tree && s'.tree[[]] == s.tree[[]]
  {
    StepEvolves(s, path, depth, link);
  }

  /** The upper levels of vmm_map_page from `depth` down; it stops where no frame is left for a table. */
  ghost function Build(s: Space, path: Path, link: nat, depth: nat): Space
    requires Sound(s) && depth <= 3 && path[..depth] in s.tree && LinkFlags(link)
    decreases 3 - depth
  {
    if depth == 3 then s
    else
      StepSound(s, path, depth, link);
      var s' := Step(s, path, depth, link);
      if path[..depth + 1] in s'.tree then Build(s', path, link, depth + 1) else s'
  }

  /** Where one level fails, nothing below it is there either. */
  lemma BuildStops(s: Space, path: Path, link: nat, depth: nat)
    requires Sound(s) && depth < 3 && path[..depth] in s.tree && LinkFlags(link)
    ensures var s' := Step(s, path, depth, link);
            && Sound(s')
            && (if path[..depth + 1] in s'.tree then Build(s, path, link, depth) == Build(s', path, link, depth + 1)
                else Build(s, path, link, depth) == s' && path[..3] !in s'.tree)
            && (depth == 2 ==> Build(s, path, link, depth) == s')
  {
    StepEvolves(s, path, depth, link);
    var s' := Step(s, path, depth, link);
    if path[..depth + 1] !in s'.tree { NoTableNoLeaf(s'.mem, s'.tree, path, depth + 1); }
  }

  lemma OnPath(path: Path, depth: nat)
    requires depth < 3
    ensures path[..depth + 1] in TablesOf(path)
  {
  }

  /** What building the tables of a path from some depth on leaves. */
  ghost predicate Built(s: Space, s': Space, path: Path, link: nat, depth: nat)
    requires depth <= 3
  {
    && Sound(s') && Evolves(s, s', TablesOf(path))
    && (path[..3] !in s'.tree ==> s'.free == {})
    && (path[..3] in s'.tree && link == PRESENT + WRITE + USER && UserAbove(s, path, depth) ==> UserAbove(s', path, 3))
  }

  /** One level built is a part of the whole. */
  ghost predicate Started(s: Space, s': Space, path: Path, link: nat, depth: nat)
    requires depth < 3
  {
    && Sound(s') && Evolves(s, s', TablesOf(path))
    && (link == PRESENT + WRITE + USER && UserAbove(s, path, depth) ==> UserAbove(s', path, depth + 1))
  }

  lemma StepStarts(s: Space, path: Path, link: nat, depth: nat, s': Space)
    requires Sound(s) && depth < 3 && path[..depth] in s.tree && LinkFlags(link) && s' == Step(s, path, depth, link)
    ensures path[..depth + 1] in s'.tree ==> Started(s, s', path, link, depth)
    ensures path[..depth + 1] !in s'.tree ==> Built(s, s', path, link, depth)
  {
    StepEvolves(s, path, depth, link);
    OnPath(path, depth);
    if path[..depth + 1] !in s'.tree { NoTableNoLeaf(s'.mem, s'.tree, path, depth + 1); }
  }

  lemma StartedBuilt(s: Space, s': Space, s'': Space, path: Path, link: nat, depth: nat)
    requires depth < 3 && Started(s, s', path, link, depth) && Built(s', s'', path, link, depth + 1)
    ensures Built(s, s'', path, link, depth)
  {
    EvolvesTrans(s, s', s'', TablesOf(path), TablesOf(path));
  }

  lemma {:induction false} BuildEvolves(s: Space, path: Path, link: nat, depth: nat)
    requires Sound(s) && depth <= 3 && path[..depth] in s.tree && LinkFlags(link)
    ensures Built(s, Build(s, path, link, depth), path, link, depth)
    decreases 3 - depth
  {
    if depth < 3 {
      var s' := Step(s, path, depth, link);
      StepStarts(s, path, link, depth, s');
      if path[..depth + 1] in s'.tree {
        BuildEvolves(s', path, link, depth + 1);
        StartedBuilt(s, s', Build(s', path, link, depth + 1), path, link, depth);
      }
    }
  }

  /** vmm_map_page with the leaf entry it stores and the flags it gives the links above. */
  ghost function Map(s: Space, path: Path, e: Word, link: nat): Space
    requires Sound(s) && LinkFlags(link)
  {
    AtRoot(path);
    BuildEvolves(s, path, link, 0);
    var b := Build(s, path, link, 0);
    if path[..3] in b.tree then b.(mem := SetEntry(b.mem, b.tree[path[..3]], path[3], e)) else b
  }

  /** The tables a page still lacks. */
  function Missing(s: Space, path: Path): set<seq<nat>> {
    TablesOf(path) - s.tree.Keys
  }

  lemma GrowsToAll<T>(keys: set<T>, keys': set<T>, places: set<T>)
    requires keys <= keys' <= keys + places && places <= keys'
    ensures keys' == keys + places && |keys'| == |keys| + |places - keys|
  {
    assert keys' == keys + (places - keys);
  }

  lemma GrowsShort<T>(keys: set<T>, keys': set<T>, places: set<T>, q: T)
    requires keys <= keys' <= keys + places && q in places && q !in keys'
    ensures |keys'| < |keys| + |places - keys|
  {
    SubsetSize(keys', keys + (places - keys) - {q});
  }

  /** Mapping succeeds exactly when there are enough free frames for the tables the page lacks. */
  lemma BuildSucceeds(s: Space, path: Path, link: nat)
    requires Sound(s) && LinkFlags(link)
    ensures path[..0] in s.tree
    ensures path[..3] in Build(s, path, link, 0).tree <==> |Missing(s, path)| <= |s.free|
    ensures path[..3] in Build(s, path, link, 0).tree ==>
              Build(s, path, link, 0).tree.Keys == s.tree.Keys + TablesOf(path)
  {
    AtRoot(path);
    BuildEvolves(s, path, link, 0);
    var b := Build(s, path, link, 0);
    if path[..3] in b.tree {
      TablesPresent(b.mem, b.tree, path);
      GrowsToAll(s.tree.Keys, b.tree.Keys, TablesOf(path));
    } else {
      GrowsShort(s.tree.Keys, b.tree.Keys, TablesOf(path), path[..3]);
    }
  }

  ghost function StoreLeaf(s: Space, path: Path, e: Word): Space
    requires Sound(s) && path[..3] in s.tree
  {
    s.(mem := SetEntry(s.mem, s.tree[path[..3]], path[3], e))
  }

  /** Storing a leaf updates the plain map at that page alone. */
  lemma StoreLeafEffect(s: Space, path: Path, e: Word)
    requires Sound(s) && path[..3] in s.tree && (User(e) ==> UserAbove(s, path, 3))
    ensures Sound(StoreLeaf(s, path, e)) && PageMap(StoreLeaf(s, path, e)) == PageMap(s)[path := e]
  {
    var s' := StoreLeaf(s, path, e);
    SetLeaf(s.mem, s.tree, path, e);
    forall p: Path, d | 0 <= d <= 3
      ensures EntryAt(s'.mem, s'.tree, p, d) == if d == 3 && p == path then e else EntryAt(s.mem, s.tree, p, d)
    {
      SetEntrySeen(s.mem, s.tree, path, 3, e, p, d);
      assert p[..4] == p && path[..4] == path;
    }
  }

  lemma StoreLeafUntouched(s: Space, b: Space, path: Path, e: Word)
    requires Sound(s) && Sound(b) && Evolves(s, b, TablesOf(path)) && path[..3] in b.tree
    ensures Untouched(s, StoreLeaf(b, path, e)) && Grown(s, StoreLeaf(b, path, e), TablesOf(path))
  {
    GrownValues(s, b, TablesOf(path));
    assert b.tree[path[..3]] in b.tree.Values;
    forall f: nat | f !in s.tree.Values && f !in s.free
      ensures SameFrame(s.mem, StoreLeaf(b, path, e).mem, f)
    {
      assert SameFrame(s.mem, b.mem, f);
    }
  }

  /**
   The page tables refine a plain map. With frames for the tables the page lacks, mapping
   updates the map at that page alone; without, it leaves the whole map as it was. Either
   way the tables stay sound, and no frame but tables and formerly free frames is written.
   */
  lemma MapRefines(s: Space, path: Path, e: Word, link: nat)
    requires Sound(s) && LinkFlags(link) && (User(e) ==> link == PRESENT + WRITE + USER)
    ensures var s' := Map(s, path, e, link);
            && Sound(s') && Grown(s, s', TablesOf(path)) && Untouched(s, s')
            && (if |Missing(s, path)| <= |s.free|
                then PageMap(s') == PageMap(s)[path := e] && s'.tree.Keys == s.tree.Keys + TablesOf(path)
                else PageMap(s') == PageMap(s) && s'.free == {})
  {
    BuildSucceeds(s, path, link);
    BuildEvolves(s, path, link, 0);
    var b := Build(s, path, link, 0);
    if path[..3] in b.tree {
      StoreLeafEffect(b, path, e);
      StoreLeafUntouched(s, b, path, e);
    }
  }

  lemma MapSound(s: Space, path: Path, e: Word, link: nat)
    requires Sound(s) && LinkFlags(link) && (User(e) ==> link == PRESENT + WRITE + USER)
    ensures var s' := Map(s, path, e, link); Sound(s') && [] in s.tree && [] in s'.tree && s'.tree[[]] == s.tree[[]]
  {
    MapRefines(s, path, e, link);
  }

  /** In every sound state the rights the processor computes for a page are those of its leaf alone. */
  lemma TranslateIsLeaf(s: Space, path: Path)
    requires Sound(s)
    ensures Translate(s, path) == Decode(PageMap(s)[path])
  {
    WalkIsLeaf(s.mem, s.tree, path);
  }

  lemma MapLeaf(s: Space, path: Path, e: Word, link: nat, p: Path)
    requires Sound(s) && LinkFlags(link) && (User(e) ==> link == PRESENT + WRITE + USER)
    ensures PageMap(Map(s, path, e, link))[p] ==
            if p == path && |Missing(s, path)| <= |s.free| then e else PageMap(s)[p]
  {
    MapRefines(s, path, e, link);
  }

  /** vmm_map_page, as the processor sees it: one page changes, or none. */
  lemma MapTranslates(s: Space, path: Path, e: Word, link: nat, p: Path)
    requires Sound(s) && LinkFlags(link) && (User(e) ==> link == PRESENT + WRITE + USER)
    ensures Translate(Map(s, path, e, link), p) ==
            if p == path && |Missing(s, path)| <= |s.free| then Decode(e) else Translate(s, p)
  {
    MapSound(s, path, e, link);
    MapLeaf(s, path, e, link, p);
    TranslateIsLeaf(s, p);
    TranslateIsLeaf(Map(s, path, e, link), p);
  }

  /** vmm_unmap_page: clear the leaf if its page table exists. */
  ghost function Unmap(s: Space, path: Path): Space
    requires Sound(s)
  {
    if path[..3] in s.tree then StoreLeaf(s, path, 0) else s
  }

  lemma UnmapRefines(s: Space, path: Path)
    requires Sound(s)
    ensures Sound(Unmap(s, path)) && PageMap(Unmap(s, path)) == PageMap(s)[path := 0]
  {
    if path[..3] in s.tree {
      StoreLeafEffect(s, path, 0);
    } else {
      NoTableNoLeaf(s.mem, s.tree, path, 3);
    }
  }

  lemma UnmapSound(s: Space, path: Path)
    requires Sound(s)
    ensures Sound(Unmap(s, path))
  {
    UnmapRefines(s, path);
  }

  // ---- The calls in machine words ----

  /** The flags of the links above a leaf: always present and writable, and open to user mode if the leaf is. */
  function LinkFor(flags: Half): (link: nat)
    ensures LinkFlags(link)
  {
    if flags / 4 % 2 == 1 then PRESENT + WRITE + USER else PRESENT + WRITE
  }

  /** `(phys & PAGE_MASK) | flags`. */
  function LeafFor(phys: Word, flags: Half): (e: Word)
    ensures User(e) ==> LinkFor(flags) == PRESENT + WRITE + USER
    ensures e / 4096 == BitOr(phys / 4096, flags / 4096) && e % 4096 == flags % 4096
    ensures flags < 4096 ==> FrameOf(e) == phys / 4096 && e % 4096 == flags
  {
    OrWord(phys / 4096 * 4096, flags);
    LeafBits(phys, flags);
    BitOr(phys / 4096 * 4096, flags)
  }

  lemma Aligned(p: nat)
    ensures p * 4096 / 4096 == p && p * 4096 % 4096 == 0 && p * 4096 / 4 % 2 == 0
  {
    assert p * 4096 / 4 == 2 * (p * 512);
  }

  lemma LeafBits(phys: Word, flags: Half)
    ensures var e := BitOr(phys / 4096 * 4096, flags);
            && (e / 4 % 2 == 1 ==> flags / 4 % 2 == 1)
            && e / 4096 == BitOr(phys / 4096, flags / 4096) && e % 4096 == flags % 4096
            && (flags < 4096 ==> e / 4096 == phys / 4096 && e % 4096 == flags)
  {
    var p := phys / 4096;
    Aligned(p);
    OrSplits(p * 4096, flags);
    OrZero(flags % 4096);
    OrZero(p);
    OrBit2(p * 4096, flags);
  }

  ghost function MapAt(s: Space, virt: Word, phys: Word, flags: Half): Space
    requires Sound(s)
  {
    Map(s, PathOf(virt / 4096), LeafFor(phys, flags), LinkFor(flags))
  }

  // ---- Which links are open to user mode ----

  /** A link is open only if it was before, or if it is on this path and the path is opened. */
  ghost predicate Opens(s: Space, s': Space, path: Path, user: bool) {
    forall p: Path, d | 0 <= d < 3 :: User(EntryAt(s'.mem, s'.tree, p, d)) ==>
      User(EntryAt(s.mem, s.tree, p, d)) || (user && p[..d + 1] == path[..d + 1])
  }

  lemma OpensTrans(s: Space, s': Space, s'': Space, path: Path, user: bool)
    requires Opens(s, s', path, user) && Opens(s', s'', path, user)
    ensures Opens(s, s'', path, user)
  {
  }

  lemma StepOpens(s: Space, path: Path, depth: nat, link: nat)
    requires Sound(s) && depth < 3 && path[..depth] in s.tree && LinkFlags(link)
    ensures Opens(s, Step(s, path, depth, link), path, link == PRESENT + WRITE + USER)
  {
    if path[..depth + 1] in s.tree {
      WidenOpens(s, path, depth, link);
    } else if s.free != {} {
      HangOpens(s, path, depth, link);
    }
  }

  lemma WidenOpens(s: Space, path: Path, depth: nat, link: nat)
    requires Sound(s) && depth < 3 && path[..depth] in s.tree && LinkFlags(link) && path[..depth + 1] in s.tree
    ensures Opens(s, Step(s, path, depth, link), path, link == PRESENT + WRITE + USER)
  {
    var e := EntryAt(s.mem, s.tree, path, depth);
    var s' := Step(s, path, depth, link);
    OrWord(e, link);
    OrBit2(e, link);
    forall p: Path, d | 0 <= d < 3 && User(EntryAt(s'.mem, s'.tree, p, d))
      ensures User(EntryAt(s.mem, s.tree, p, d)) || (link == PRESENT + WRITE + USER && p[..d + 1] == path[..d + 1])
    {
      SetEntrySeen(s.mem, s.tree, path, depth, BitOr(e, link), p, d);
      SamePrefix(p, path, depth);
    }
  }

  lemma HangOpens(s: Space, path: Path, depth: nat, link: nat)
    requires CanHang(s, path, depth, link)
    ensures Opens(s, Step(s, path, depth, link), path, link == PRESENT + WRITE + USER)
  {
    HangLinks(s, path, depth, link);
    var f := Lowest(s.free);
    var s' := Step(s, path, depth, link);
    OrFlags(f * 4096, link);
    Aligned(f);
    OrBit2(f * 4096, link);
    forall p: Path, d | 0 <= d < 3 && User(EntryAt(s'.mem, s'.tree, p, d))
      ensures User(EntryAt(s.mem, s.tree, p, d)) || (link == PRESENT + WRITE + USER && p[..d + 1] == path[..d + 1])
    {
      LinkSeen(s.mem, s.tree, path, depth, f, BitOr(f * 4096, link), p, d);
    }
  }

  lemma {:induction false} BuildOpens(s: Space, path: Path, link: nat, depth: nat)
    requires Sound(s) && depth <= 3 && path[..depth] in s.tree && LinkFlags(link)
    ensures Opens(s, Build(s, path, link, depth), path, link == PRESENT + WRITE + USER)
    decreases 3 - depth
  {
    if depth < 3 {
      StepSound(s, path, depth, link);
      var s' := Step(s, path, depth, link);
      StepOpens(s, path, depth, link);
      if path[..depth + 1] in s'.tree {
        BuildOpens(s', path, link, depth + 1);
        OpensTrans(s, s', Build(s', path, link, depth + 1), path, link == PRESENT + WRITE + USER);
      }
    }
  }

  /** vmm_map_page opens a link to user mode only on the path of a page it maps for user mode. */
  lemma MapOpens(s: Space, virt: Word, phys: Word, flags: Half)
    requires Sound(s)
    ensures Opens(s, MapAt(s, virt, phys, flags), PathOf(virt / 4096), flags / 4 % 2 == 1)
  {
    var path, link := PathOf(virt / 4096), LinkFor(flags);
    AtRoot(path);
    BuildEvolves(s, path, link, 0);
    BuildOpens(s, path, link, 0);
    var b := Build(s, path, link, 0);
    if path[..3] in b.tree { LeafOpens(b, path, LeafFor(phys, flags)); }
  }

  lemma LeafOpens(b: Space, path: Path, e: Word)
    requires Sound(b) && path[..3] in b.tree
    ensures forall p: Path, d | 0 <= d < 3 ::
              EntryAt(StoreLeaf(b, path, e).mem, b.tree, p, d) == EntryAt(b.mem, b.tree, p, d)
  {
    forall p: Path, d | 0 <= d < 3
      ensures EntryAt(StoreLeaf(b, path, e).mem, b.tree, p, d) == EntryAt(b.mem, b.tree, p, d)
    {
      SetEntrySeen(b.mem, b.tree, path, 3, e, p, d);
    }
  }

  /** What a leaf entry with these flags says: bit 0 is present, bit 1 writable, bit 2 user. */
  function Meaning(phys: Word, flags: Half): Translation {
    if flags % 2 == 0 then Fault else Mapped(phys / 4096, flags / 2 % 2 == 1, flags / 4 % 2 == 1)
  }

  lemma LeafMeans(phys: Word, flags: Half)
    requires flags < 4096
    ensures Decode(LeafFor(phys, flags)) == Meaning(phys, flags)
  {
    FlagBits(LeafFor(phys, flags));
  }

  /**
   vmm_map_page in addresses: with frames for the tables it lacks, the page of `virt` is mapped to the frame of `phys`
   with the rights the flags give; every other page, and without frames every page, translates as before.
   */
  lemma MapMeans(s: Space, virt: Word, phys: Word, flags: Half, v: Word)
    requires Sound(s) && flags < 4096
    ensures Translate(MapAt(s, virt, phys, flags), PathOf(v / 4096)) ==
            if v / 4096 % PAGES == virt / 4096 % PAGES && |Missing(s, PathOf(virt / 4096))| <= |s.free|
            then Meaning(phys, flags) else Translate(s, PathOf(v / 4096))
  {
    MapTranslates(s, PathOf(virt / 4096), LeafFor(phys, flags), LinkFor(flags), PathOf(v / 4096));
    SamePath(v / 4096, virt / 4096);
    LeafMeans(phys, flags);
  }

  /** vmm_unmap_page in addresses: the page of `virt` faults, and every other page translates as before. */
  lemma UnmapMeans(s: Space, virt: Word, v: Word)
    requires Sound(s)
    ensures Translate(Unmap(s, PathOf(virt / 4096)), PathOf(v / 4096)) ==
            if v / 4096 % PAGES == virt / 4096 % PAGES then Fault else Translate(s, PathOf(v / 4096))
  {
    var s', p := Unmap(s, PathOf(virt / 4096)), PathOf(v / 4096);
    UnmapRefines(s, PathOf(virt / 4096));
    SamePath(v / 4096, virt / 4096);
    TranslateIsLeaf(s, p);
    TranslateIsLeaf(s', p);
  }

  // ---- Runs ----

  datatype Call = MapCall(virt: Word, phys: Word, flags: Half) | UnmapCall(virt: Word) {
    function Where(): Path { PathOf(virt / 4096) }
    function Entry(): Word { if MapCall? then LeafFor(phys, flags) else 0 }
    function Tables(): set<seq<nat>> { if MapCall? then TablesOf(Where()) else {} }
  }

  ghost function Do(s: Space, c: Call): (s': Space)
    requires Sound(s)
    ensures Sound(s') && [] in s.tree && [] in s'.tree && s'.tree[[]] == s.tree[[]]
  {
    if c.MapCall? then
      MapSound(s, c.Where(), c.Entry(), LinkFor(c.flags));
      MapAt(s, c.virt, c.phys, c.flags)
    else
      UnmapSound(s, c.Where());
      Unmap(s, c.Where())
  }

  /** A run of calls, the last one last. */
  ghost function Run(s: Space, calls: seq<Call>): (s': Space)
    requires Sound(s)
    ensures Sound(s') && [] in s.tree && [] in s'.tree && s'.tree[[]] == s.tree[[]]
  {
    if calls == [] then s else Do(Run(s, calls[..|calls| - 1]), calls[|calls| - 1])
  }

  /** The same run on the plain map. */
  ghost function Plain(pages: imap<Path, Word>, calls: seq<Call>): imap<Path, Word> {
    if calls == [] then pages
    else Plain(pages, calls[..|calls| - 1])[calls[|calls| - 1].Where() := calls[|calls| - 1].Entry()]
  }

  ghost function RunTables(calls: seq<Call>): set<seq<nat>> {
    if calls == [] then {} else RunTables(calls[..|calls| - 1]) + calls[|calls| - 1].Tables()
  }

  /** A mapping that finds its frames pays one for each table that was missing. */
  lemma MapPays(s: Space, path: Path, e: Word, link: nat, s': Space)
    requires Sound(s) && LinkFlags(link) && (User(e) ==> link == PRESENT + WRITE + USER) && s' == Map(s, path, e, link)
    requires |TablesOf(path) - s.tree.Keys| <= |s.free|
    ensures PageMap(s') == PageMap(s)[path := e] && s'.tree.Keys == s.tree.Keys + TablesOf(path)
    ensures |s'.free| + |TablesOf(path) - s.tree.Keys| == |s.free|
  {
    MapRefines(s, path, e, link);
    GrowsToAll(s.tree.Keys, s'.tree.Keys, TablesOf(path));
  }

  lemma DoRefines(s: Space, c: Call)
    requires Sound(s) && |c.Tables() - s.tree.Keys| <= |s.free|
    ensures PageMap(Do(s, c)) == PageMap(s)[c.Where() := c.Entry()]
    ensures Do(s, c).tree.Keys == s.tree.Keys + c.Tables()
    ensures |Do(s, c).free| + |c.Tables() - s.tree.Keys| == |s.free|
  {
    if c.MapCall? { MapPays(s, c.Where(), c.Entry(), LinkFor(c.flags), Do(s, c)); } else { UnmapRefines(s, c.Where()); }
  }

  /** Two batches of places are needed one after the other. */
  lemma NeedSplits<T>(keys: set<T>, first: set<T>, second: set<T>)
    ensures |(first + second) - keys| == |first - keys| + |second - (keys + first)|
  {
    assert (first + second) - keys == (first - keys) + (second - (keys + first));
  }

  /** `s'` stands for the plain map `pages`, has gained the tables at `tables`, and paid one frame for each new one. */
  ghost predicate Reached(s: Space, s': Space, pages: imap<Path, Word>, tables: set<seq<nat>>) {
    && PageMap(s') == pages
    && s'.tree.Keys == s.tree.Keys + tables
    && |s'.free| + |tables - s.tree.Keys| == |s.free|
  }

  lemma ReachedThen(s: Space, s1: Space, c: Call, pages: imap<Path, Word>, tables: set<seq<nat>>)
    requires Sound(s) && Sound(s1) && Reached(s, s1, pages, tables)
    requires |(tables + c.Tables()) - s.tree.Keys| <= |s.free|
    ensures Reached(s, Do(s1, c), pages[c.Where() := c.Entry()], tables + c.Tables())
  {
    var more := c.Tables();
    NeedSplits(s.tree.Keys, tables, more);
    assert |more - s1.tree.Keys| <= |s1.free|;
    DoRefines(s1, c);
    UnionsAssoc(s.tree.Keys, tables, more);
  }

  lemma UnionsAssoc<T>(a: set<T>, b: set<T>, c: set<T>)
    ensures a + b + c == a + (b + c)
  {
  }

  lemma FewerNeeded<T>(keys: set<T>, first: set<T>, second: set<T>)
    ensures |first - keys| <= |(first + second) - keys|
  {
    SubsetSize(first - keys, (first + second) - keys);
  }

  /**
   Every run of vmm_map_page and vmm_unmap_page that finds frames for the tables it needs
   does to the page tables what it does to the plain map, and takes exactly those frames.
   */
  lemma {:induction false} RunRefines(s: Space, calls: seq<Call>)
    requires Sound(s) && |RunTables(calls) - s.tree.Keys| <= |s.free|
    ensures Reached(s, Run(s, calls), Plain(PageMap(s), calls), RunTables(calls))
  {
    if calls == [] {
      assert s.tree.Keys + {} == s.tree.Keys;
    } else {
      var init, last := calls[..|calls| - 1], calls[|calls| - 1];
      FewerNeeded(s.tree.Keys, RunTables(init), last.Tables());
      RunRefines(s, init);
      ReachedThen(s, Run(s, init), last, Plain(PageMap(s), init), RunTables(init));
    }
  }

  // ---- vmm_init ----

  const IDENTITY_PAGES := 1024

  /** Nothing but an empty PML4 in the lowest free frame. */
  ghost function Empty(mem: Memory, free: set<nat>): (s: Space)
    requires free != {} && forall f | f in free :: 0 < f < MAX_FRAMES
    ensures Sound(s)
  {
    EmptySound(mem[Lowest(free) := ZeroTable()], Lowest(free), free - {Lowest(free)});
    Space(mem[Lowest(free) := ZeroTable()], map[[] := Lowest(free)], free - {Lowest(free)})
  }

  lemma EmptySound(mem: Memory, f: nat, free: set<nat>)
    requires f in mem && mem[f] == ZeroTable() && 0 < f < MAX_FRAMES && f !in free
    requires forall g | g in free :: 0 < g < MAX_FRAMES
    ensures Sound(Space(mem, map[[] := f], free))
    ensures forall path: Path :: PageMap(Space(mem, map[[] := f], free))[path] == 0
  {
  }

  /** The calls of vmm_init: the first `n` pages mapped to the frames of the same number. */
  function IdentityCalls(n: nat): seq<Call>
    requires n <= IDENTITY_PAGES
  {
    seq(n, i requires 0 <= i < n => MapCall(i * 4096, i * 4096, PRESENT + WRITE))
  }

  ghost function Booted(mem: Memory, free: set<nat>): (s: Space)
    requires free != {} && forall f | f in free :: 0 < f < MAX_FRAMES
    ensures Sound(s)
  {
    Run(Empty(mem, free), IdentityCalls(IDENTITY_PAGES))
  }

  lemma IdentityPath(page: nat)
    requires page < IDENTITY_PAGES
    ensures TablesOf(PathOf(page)) == {[0], [0, 0], [0, 0, page / 512]}
  {
    var path := PathOf(page);
    assert path == [0, 0, page / 512, page % 512];
    assert path[..1] == [0] && path[..2] == [0, 0] && path[..3] == [0, 0, page / 512];
  }

  /** The four tables that cover the first 4 MiB. */
  function IdentityTables(n: nat): set<seq<nat>> {
    if n == 0 then {} else {[0], [0, 0], [0, 0, 0]} + if n <= 512 then {} else {[0, 0, 1]}
  }

  lemma IdentityCallsGrow(page: nat)
    requires page < IDENTITY_PAGES
    ensures var calls := IdentityCalls(page + 1);
            && calls[..page] == IdentityCalls(page)
            && calls[page] == MapCall(page * 4096, page * 4096, PRESENT + WRITE)
            && calls[page].Where() == PathOf(page) && calls[page].Entry() == page * 4096 + 3
  {
  }

  lemma IdentityStep(s: Space, page: nat)
    requires Sound(s) && page < IDENTITY_PAGES
    ensures Run(s, IdentityCalls(page + 1)) ==
            MapAt(Run(s, IdentityCalls(page)), page * 4096, page * 4096, PRESENT + WRITE)
  {
    IdentityCallsGrow(page);
  }

  lemma {:induction false} IdentityNeeds(n: nat)
    requires n <= IDENTITY_PAGES
    ensures RunTables(IdentityCalls(n)) == IdentityTables(n)
  {
    if n > 0 {
      IdentityNeeds(n - 1);
      IdentityCallsGrow(n - 1);
      IdentityPath(n - 1);
      assert (n - 1) / 512 == if n <= 512 then 0 else 1;
    }
  }

  lemma {:induction false} IdentityPages(n: nat, pages: imap<Path, Word>, path: Path)
    requires n <= IDENTITY_PAGES && path in pages
    ensures path in Plain(pages, IdentityCalls(n))
    ensures Plain(pages, IdentityCalls(n))[path] == if PageOf(path) < n then PageOf(path) * 4096 + 3 else pages[path]
  {
    if n > 0 {
      var calls := IdentityCalls(n);
      IdentityPages(n - 1, pages, path);
      IdentityCallsGrow(n - 1);
      PathIs(path, n - 1);
      assert Plain(pages, calls) == Plain(pages, calls[..n - 1])[calls[n - 1].Where() := calls[n - 1].Entry()];
    }
  }

  lemma BootTables(s: Space)
    requires Sound(s) && s.tree.Keys == {[]} && |s.free| >= 4
    ensures var calls := IdentityCalls(IDENTITY_PAGES);
            && Reached(s, Run(s, calls), Plain(PageMap(s), calls), RunTables(calls))
            && |Run(s, calls).free| == |s.free| - 4
  {
    IdentityNeeds(IDENTITY_PAGES);
    assert IdentityTables(IDENTITY_PAGES) - s.tree.Keys == {[0], [0, 0], [0, 0, 0], [0, 0, 1]};
    FourTables();
    RunRefines(s, IdentityCalls(IDENTITY_PAGES));
  }

  lemma FourTables()
    ensures var t: set<seq<nat>> := {[0], [0, 0], [0, 0, 0], [0, 0, 1]}; |t| == 4
  {
    var a: seq<nat>, b: seq<nat>, c: seq<nat>, d: seq<nat> := [0], [0, 0], [0, 0, 0], [0, 0, 1];
    assert c[2] != d[2];
    assert a != b && a != c && a != d && b != c && b != d && c != d;
  }

  /** What the processor makes of a page the identity run maps, or leaves alone. */
  lemma IdentityEntry(page: nat, e: Word)
    requires page < PAGES && e == if page < IDENTITY_PAGES then page * 4096 + 3 else 0
    ensures Decode(e) == if page < IDENTITY_PAGES then Mapped(page, true, false) else Fault
  {
    if page < IDENTITY_PAGES { LinkBits(e); }
  }

  lemma BootLeaf(s: Space, path: Path)
    requires Sound(s) && s.tree.Keys == {[]} && |s.free| >= 4 && PageMap(s)[path] == 0
    ensures PageMap(Run(s, IdentityCalls(IDENTITY_PAGES)))[path] ==
            if PageOf(path) < IDENTITY_PAGES then PageOf(path) * 4096 + 3 else 0
  {
    BootTables(s);
    IdentityPages(IDENTITY_PAGES, PageMap(s), path);
  }

  /**
   After vmm_init with five free frames the first 4 MiB are mapped to themselves for the kernel, and nothing else is.
   */
  lemma BootMapsIdentity(mem: Memory, free: set<nat>, path: Path)
    requires |free| >= 5 && forall f | f in free :: 0 < f < MAX_FRAMES
    ensures Translate(Booted(mem, free), path) ==
            if PageOf(path) < 1024 then Mapped(PageOf(path), true, false) else Fault
    ensures |Booted(mem, free).free| == |free| - 5
  {
    var s := Empty(mem, free);
    EmptySound(s.mem, Lowest(free), s.free);
    assert s.tree.Keys == {[]} && |s.free| == |free| - 1 && PageMap(s)[path] == 0;
    BootTables(s);
    BootLeaf(s, path);
    TranslateIsLeaf(Booted(mem, free), path);
    IdentityEntry(PageOf(path), PageMap(Booted(mem, free))[path]);
  }
}
