/**
 Filling fresh frames and mapping them, page by page: what load_segment, the stack loops of
 handle_exec and usermode_exec_elf do to memory, the page tables and the frame allocator.
 */
module Loading {
  import opened Bits
  import opened Folding
  import opened Frames
  import opened PageTables
  import opened Mapping

  datatype Option<+T> = None | Some(value: T)

  /** One fresh page: where it goes, what its frame is filled with (None: left as it is), and the leaf's flags. */
  datatype PageLoad = PageLoad(path: Path, bytes: Option<seq<Byte>>, flags: Half)

  ghost function Filled(mem: Memory, f: nat, bytes: Option<seq<Byte>>): Memory {
    if bytes.Some? then mem[f := Data(bytes.value)] else mem
  }

  /** Taking the lowest free frame and filling it leaves tables and page map alone. */
  ghost function Take(s: Space, bytes: Option<seq<Byte>>): (s': Space)
    requires Sound(s) && s.free != {}
    ensures Sound(s') && PageMap(s') == PageMap(s)
  {
    var f := Lowest(s.free);
    SameTables(s.mem, Filled(s.mem, f, bytes), s.tree);
    Space(Filled(s.mem, f, bytes), s.tree, s.free - {f})
  }

  /** The leaf entry for a frame, and what it says. */
  function LeafTo(f: nat, flags: Half): (e: Word)
    requires f < MAX_FRAMES
    ensures flags < 4096 ==> FrameOf(e) == f && e % 4096 == flags
    ensures User(e) ==> LinkFor(flags) == PRESENT + WRITE + USER
  {
    LeafFor(f * 4096, flags)
  }

  ghost function NewLeaf(s: Space, l: PageLoad): Word
    requires Sound(s) && s.free != {}
  {
    LeafTo(Lowest(s.free), l.flags)
  }

  /** One round of the loading loops: nothing happens once frames have run out. */
  ghost function Place(s: Space, l: PageLoad): (s': Space)
    ensures Sound(s) ==> Sound(s') && SameRoot(s, s')
  {
    if !Sound(s) || s.free == {} then s
    else
      MapSound(Take(s, l.bytes), l.path, NewLeaf(s, l), LinkFor(l.flags));
      Map(Take(s, l.bytes), l.path, NewLeaf(s, l), LinkFor(l.flags))
  }

  ghost predicate SameRoot(s: Space, s': Space) {
    [] in s.tree && [] in s'.tree && s'.tree[[]] == s.tree[[]]
  }

  ghost function PlaceAll(s: Space, loads: seq<PageLoad>): (s': Space)
    requires Sound(s)
    ensures Sound(s') && SameRoot(s, s')
  {
    FoldKeeps(Place, x => Sound(x) && SameRoot(s, x), s, loads);
    Fold(Place, s, loads)
  }

  ghost function LoadTables(loads: seq<PageLoad>): set<seq<nat>> {
    if loads == [] then {} else LoadTables(loads[..|loads| - 1]) + TablesOf(loads[|loads| - 1].path)
  }

  // ---- What stays ----

  /** Frames that were neither free nor tables keep their contents, and stay neither. */
  ghost predicate Kept(s: Space, s': Space) {
    && s'.free <= s.free
    && s'.tree.Values <= s.tree.Values + s.free
    && Untouched(s, s')
  }

  lemma KeptTrans(s: Space, s1: Space, s2: Space)
    requires Kept(s, s1) && Kept(s1, s2)
    ensures Kept(s, s2)
  {
    UntouchedTrans(s, s1, s2);
  }

  lemma MapKeeps(s: Space, path: Path, e: Word, link: nat)
    requires Sound(s) && LinkFlags(link) && (User(e) ==> link == PRESENT + WRITE + USER)
    ensures Kept(s, Map(s, path, e, link))
  {
    MapRefines(s, path, e, link);
    GrownValues(s, Map(s, path, e, link), TablesOf(path));
  }

  lemma TakeKeeps(s: Space, bytes: Option<seq<Byte>>)
    requires Sound(s) && s.free != {}
    ensures Kept(s, Take(s, bytes))
  {
  }

  lemma PlaceKeeps(s: Space, l: PageLoad)
    requires Sound(s)
    ensures Kept(s, Place(s, l))
  {
    if s.free != {} {
      TakeKeeps(s, l.bytes);
      MapKeeps(Take(s, l.bytes), l.path, NewLeaf(s, l), LinkFor(l.flags));
      KeptTrans(s, Take(s, l.bytes), Place(s, l));
    }
  }

  // ---- One page ----

  ghost function Cost(s: Space, l: PageLoad): nat {
    1 + |TablesOf(l.path) - s.tree.Keys|
  }

  lemma PlaceRefines(s: Space, l: PageLoad)
    requires Sound(s) && Cost(s, l) <= |s.free|
    ensures s.free != {}
    ensures PageMap(Place(s, l)) == PageMap(s)[l.path := NewLeaf(s, l)]
    ensures Place(s, l).tree.Keys == s.tree.Keys + TablesOf(l.path)
    ensures |Place(s, l).free| + Cost(s, l) == |s.free|
  {
    assert s.free != {};
    var t := Take(s, l.bytes);
    assert |t.free| == |s.free| - 1;
    MapPays(t, l.path, NewLeaf(s, l), LinkFor(l.flags), Place(s, l));
  }

  /** The frame of a page just placed is out of the allocator, is no table, and holds the bytes. */
  lemma PlaceFills(s: Space, l: PageLoad)
    requires Sound(s) && s.free != {}
    ensures var f, s' := Lowest(s.free), Place(s, l);
            && f !in s'.free && f !in s'.tree.Values
            && (l.bytes.Some? ==> f in s'.mem && s'.mem[f] == Data(l.bytes.value))
  {
    var t := Take(s, l.bytes);
    MapKeeps(t, l.path, NewLeaf(s, l), LinkFor(l.flags));
    assert SameFrame(t.mem, Place(s, l).mem, Lowest(s.free));
  }

  /** A page that could not be placed has used up all frames. */
  lemma PlaceFails(s: Space, l: PageLoad)
    requires Sound(s) && Cost(s, l) > |s.free|
    ensures Place(s, l).free == {} && PageMap(Place(s, l)) == PageMap(s)
  {
    if s.free != {} {
      var t := Take(s, l.bytes);
      assert |t.free| == |s.free| - 1;
      MapRefines(t, l.path, NewLeaf(s, l), LinkFor(l.flags));
    }
  }

  // ---- A whole load ----

  /** The frames a load takes: one for every page and one for every table that is not there yet. */
  ghost function Need(s: Space, loads: seq<PageLoad>): nat {
    |loads| + |LoadTables(loads) - s.tree.Keys|
  }

  lemma NeedGrows(s: Space, loads: seq<PageLoad>)
    requires loads != []
    ensures var init := loads[..|loads| - 1];
            && Need(s, init) <= Need(s, loads)
            && Need(s, loads) ==
               Need(s, init) + 1 + |TablesOf(loads[|loads| - 1].path) - (s.tree.Keys + LoadTables(init))|
  {
    NeedSplits(s.tree.Keys, LoadTables(loads[..|loads| - 1]), TablesOf(loads[|loads| - 1].path));
  }

  /** With enough frames a load takes exactly what it needs, whatever the order of its pages. */
  lemma {:induction false} PlaceAllSucceeds(s: Space, loads: seq<PageLoad>)
    requires Sound(s) && Need(s, loads) <= |s.free|
    ensures PlaceAll(s, loads).tree.Keys == s.tree.Keys + LoadTables(loads)
    ensures |PlaceAll(s, loads).free| + Need(s, loads) == |s.free|
  {
    if loads == [] {
      assert s.tree.Keys + {} == s.tree.Keys;
    } else {
      var init, last := loads[..|loads| - 1], loads[|loads| - 1];
      NeedGrows(s, loads);
      PlaceAllSucceeds(s, init);
      PlaceRefines(PlaceAll(s, init), last);
      UnionsAssoc(s.tree.Keys, LoadTables(init), TablesOf(last.path));
    }
  }

  /** Without enough frames it ends with none left. */
  lemma {:induction false} PlaceAllFails(s: Space, loads: seq<PageLoad>)
    requires Sound(s) && Need(s, loads) > |s.free|
    ensures PlaceAll(s, loads).free == {}
  {
    if loads != [] {
      var init, last := loads[..|loads| - 1], loads[|loads| - 1];
      NeedGrows(s, loads);
      if Need(s, init) > |s.free| {
        PlaceAllFails(s, init);
      } else {
        PlaceAllSucceeds(s, init);
        PlaceFails(PlaceAll(s, init), last);
      }
    }
  }

  lemma {:induction false} PlaceAllKeeps(s: Space, loads: seq<PageLoad>)
    requires Sound(s)
    ensures Kept(s, PlaceAll(s, loads))
  {
    if loads != [] {
      var init := loads[..|loads| - 1];
      PlaceAllKeeps(s, init);
      PlaceKeeps(PlaceAll(s, init), loads[|loads| - 1]);
      KeptTrans(s, PlaceAll(s, init), PlaceAll(s, loads));
    }
  }

  /** The page is mapped with the load's flags to a frame of its own that holds the load's bytes. */
  ghost predicate Holds(s: Space, path: Path, l: PageLoad) {
    var leaf := PageMap(s)[path];
    && leaf % 4096 == l.flags
    && FrameOf(leaf) !in s.free && FrameOf(leaf) !in s.tree.Values
    && (l.bytes.Some? ==> FrameOf(leaf) in s.mem && s.mem[FrameOf(leaf)] == Data(l.bytes.value))
  }

  lemma HoldsKept(s: Space, s': Space, path: Path, l: PageLoad)
    requires Kept(s, s') && Holds(s, path, l) && PageMap(s')[path] == PageMap(s)[path]
    ensures Holds(s', path, l)
  {
    assert SameFrame(s.mem, s'.mem, FrameOf(PageMap(s)[path]));
  }

  ghost predicate SmallFlags(loads: seq<PageLoad>) {
    forall i | 0 <= i < |loads| :: loads[i].flags < 4096
  }

  /** Did the page find its frames? */
  ghost predicate Placed(s: Space, l: PageLoad)
    requires Sound(s)
  {
    s.free != {} && PageMap(Place(s, l)) == PageMap(s)[l.path := NewLeaf(s, l)]
  }

  ghost predicate AllPlaced(s: Space, loads: seq<PageLoad>)
    requires Sound(s)
  {
    loads == [] || (AllPlaced(s, loads[..|loads| - 1]) && Placed(PlaceAll(s, loads[..|loads| - 1]), loads[|loads| - 1]))
  }

  /** Enough frames place every page. */
  lemma {:induction false} NeedPlaces(s: Space, loads: seq<PageLoad>)
    requires Sound(s) && Need(s, loads) <= |s.free|
    ensures AllPlaced(s, loads)
  {
    if loads != [] {
      var init, last := loads[..|loads| - 1], loads[|loads| - 1];
      NeedGrows(s, loads);
      NeedPlaces(s, init);
      PlaceAllSucceeds(s, init);
      PlaceRefines(PlaceAll(s, init), last);
    }
  }

  /** A page that found its frames shows its load. */
  lemma PlaceShows(s: Space, l: PageLoad)
    requires Sound(s) && Placed(s, l) && l.flags < 4096
    ensures Holds(Place(s, l), l.path, l)
  {
    PlaceFills(s, l);
    assert PageMap(Place(s, l))[l.path] == NewLeaf(s, l);
  }

  /** `s'` shows at `path` the last load that goes there, and otherwise what `s` has there. */
  ghost predicate Shows(s: Space, s': Space, loads: seq<PageLoad>, path: Path) {
    if loads == [] then PageMap(s')[path] == PageMap(s)[path]
    else if loads[|loads| - 1].path == path then Holds(s', path, loads[|loads| - 1])
    else Shows(s, s', loads[..|loads| - 1], path)
  }

  lemma {:induction false} ShowsKept(s: Space, s1: Space, s2: Space, loads: seq<PageLoad>, path: Path)
    requires Shows(s, s1, loads, path) && Kept(s1, s2) && PageMap(s2)[path] == PageMap(s1)[path]
    ensures Shows(s, s2, loads, path)
  {
    if loads != [] {
      if loads[|loads| - 1].path == path {
        HoldsKept(s1, s2, path, loads[|loads| - 1]);
      } else {
        ShowsKept(s, s1, s2, loads[..|loads| - 1], path);
      }
    }
  }

  lemma ShowsNext(s: Space, s1: Space, init: seq<PageLoad>, last: PageLoad, path: Path)
    requires Sound(s1) && Placed(s1, last) && last.path != path && Shows(s, s1, init, path)
    ensures Shows(s, Place(s1, last), init, path)
  {
    PlaceKeeps(s1, last);
    ShowsKept(s, s1, Place(s1, last), init, path);
  }

  lemma ShowsMore(s: Space, s1: Space, s': Space, loads: seq<PageLoad>, path: Path)
    requires loads != [] && Shows(s, s1, loads[..|loads| - 1], path)
    requires var last := loads[|loads| - 1]; Sound(s1) && Placed(s1, last) && last.flags < 4096 && s' == Place(s1, last)
    ensures Shows(s, s', loads, path)
  {
    var init, last := loads[..|loads| - 1], loads[|loads| - 1];
    if last.path == path { PlaceShows(s1, last); } else { ShowsNext(s, s1, init, last, path); }
  }

  lemma LastPlaced(s: Space, loads: seq<PageLoad>, s1: Space)
    requires Sound(s) && AllPlaced(s, loads) && loads != [] && s1 == PlaceAll(s, loads[..|loads| - 1])
    ensures Placed(s1, loads[|loads| - 1]) && PlaceAll(s, loads) == Place(s1, loads[|loads| - 1])
  {
  }

  /** What holds of all loads holds without the last one. */
  lemma AllButLast(s: Space, loads: seq<PageLoad>) returns (init: seq<PageLoad>)
    requires Sound(s) && AllPlaced(s, loads) && SmallFlags(loads) && loads != []
    ensures init == loads[..|loads| - 1] && AllPlaced(s, init) && SmallFlags(init) && |init| < |loads|
  {
    init := loads[..|loads| - 1];
    FewerFlags(loads);
    FewerPlaced(s, loads);
  }

  lemma FewerFlags(loads: seq<PageLoad>)
    requires SmallFlags(loads) && loads != []
    ensures SmallFlags(loads[..|loads| - 1])
  {
  }

  lemma FewerPlaced(s: Space, loads: seq<PageLoad>)
    requires Sound(s) && AllPlaced(s, loads) && loads != []
    ensures AllPlaced(s, loads[..|loads| - 1])
  {
  }

  /**
   After a load that found its frames, every page shows the last load that went there; the others are mapped as
   before.
   */
  lemma {:induction false} PlaceAllShows(s: Space, loads: seq<PageLoad>, path: Path) returns (s': Space)
    requires Sound(s) && AllPlaced(s, loads) && SmallFlags(loads)
    ensures s' == PlaceAll(s, loads) && Shows(s, s', loads, path)
  {
    s' := s;
    if loads != [] {
      var init := AllButLast(s, loads);
      var s1 := PlaceAllShows(s, init, path);
      LastPlaced(s, loads, s1);
      s' := Place(s1, loads[|loads| - 1]);
      ShowsMore(s, s1, s', loads, path);
    }
  }

  // ---- Pages open to user mode ----

  predicate Open(e: Word) {
    Present(e) && User(e)
  }

  /** Every page open to user mode is in a frame that is neither free nor a table. */
  ghost predicate Owned(s: Space) {
    forall path: Path | Open(PageMap(s)[path]) ::
      FrameOf(PageMap(s)[path]) !in s.free && FrameOf(PageMap(s)[path]) !in s.tree.Values
  }

  ghost predicate OwnFrame(s: Space, e: Word) {
    FrameOf(e) !in s.free && FrameOf(e) !in s.tree.Values
  }

  lemma OwnedKept(s: Space, s': Space, path: Path, e: Word)
    requires Owned(s) && Kept(s, s') && (Open(e) ==> OwnFrame(s', e))
    requires PageMap(s') == PageMap(s) || PageMap(s') == PageMap(s)[path := e]
    ensures Owned(s')
  {
  }

  lemma PlacedOrNot(s: Space, l: PageLoad)
    requires Sound(s)
    ensures Placed(s, l) || PageMap(Place(s, l)) == PageMap(s)
  {
    if Cost(s, l) <= |s.free| { PlaceRefines(s, l); } else { PlaceFails(s, l); }
  }

  lemma PlaceOwned(s: Space, l: PageLoad)
    requires Sound(s) && Owned(s) && l.flags < 4096
    ensures Owned(Place(s, l))
  {
    PlaceKeeps(s, l);
    PlacedOrNot(s, l);
    if Placed(s, l) {
      PlaceShows(s, l);
      OwnedKept(s, Place(s, l), l.path, NewLeaf(s, l));
    } else {
      OwnedKept(s, Place(s, l), l.path, 0);
    }
  }

  lemma {:induction false} PlaceAllOwned(s: Space, loads: seq<PageLoad>)
    requires Sound(s) && Owned(s) && SmallFlags(loads)
    ensures Owned(PlaceAll(s, loads))
  {
    if loads != [] {
      PlaceAllOwned(s, loads[..|loads| - 1]);
      PlaceOwned(PlaceAll(s, loads[..|loads| - 1]), loads[|loads| - 1]);
    }
  }

  // ---- Loads in pieces ----

  lemma PlaceAllAppends(s: Space, a: seq<PageLoad>, b: seq<PageLoad>)
    requires Sound(s)
    ensures PlaceAll(s, a + b) == PlaceAll(PlaceAll(s, a), b)
  {
    FoldAppends(Place, s, a, b);
  }

  type Loads = nat -> PageLoad

  lemma PlaceRound(s: Space, load: Loads, n: nat)
    requires Sound(s)
    ensures PlaceAll(s, Rounds(load, n + 1)) == Place(PlaceAll(s, Rounds(load, n)), load(n))
  {
    FoldRound(Place, s, load, n);
  }

  /** A loop that stops when frames have run out loses nothing. */
  lemma PlaceStuckEarly(s: Space, load: Loads, n: nat, m: nat)
    requires Sound(s) && n <= m && PlaceAll(s, Rounds(load, n)).free == {}
    ensures PlaceAll(s, Rounds(load, m)) == PlaceAll(s, Rounds(load, n))
  {
    FoldStuckEarly(Place, s, load, n, m);
  }
}
