/**
 The RAM filesystem (kernel/src/ramfs.c): a linked list of nodes and file data in heap blocks,
 which stands for an association list from names to bytes, newest first.
 */
module Ramfs {
  import opened Bits
  import opened HeapLayout
  import opened Kheap
  import opened Loading
  import opened Files

  /** RAMFS_NAME_MAX and sizeof(struct ramfs_file). */
  const NAME_MAX := 64
  const NODE_SIZE: Word := 88

  /** What is stored under a name. */
  type Entry = Named<seq<Byte>>

  /** A file name as it is stored: at most 63 characters. */
  function Truncated(name: seq<Byte>): seq<Byte> {
    if |name| < NAME_MAX then name else name[..NAME_MAX - 1]
  }

  /** struct ramfs_file; the name's bytes up to and including the NUL. */
  datatype Node = Node(name: seq<Byte>, data: nat, size: Word, next: nat)

  /** A file with the heap blocks of its node and its data. */
  datatype Rec = Rec(node: Block, data: Block, entry: Entry)

  function At(b: Block): nat {
    b.addr + HEADER
  }

  predicate Stores(mem: nat -> Byte, ptr: nat, data: seq<Byte>) {
    forall i | 0 <= i < |data| :: mem(ptr + i) == data[i]
  }

  /** The node at p describes the file. */
  predicate NodeOf(n: Node, r: Rec) {
    && 0 in n.name && CString(n.name) == r.entry.name && |r.entry.name| < NAME_MAX
    && n.data == At(r.data) && n.size == |r.entry.data|
  }

  /** The list from p on. */
  predicate Linked(nodes: map<nat, Node>, p: nat, list: seq<Rec>)
    decreases list
  {
    if list == [] then p == 0
    else
      && p != 0 && p == At(list[0].node) && p in nodes && NodeOf(nodes[p], list[0])
      && Linked(nodes, nodes[p].next, list[1..])
  }

  ghost function Pair(r: Rec): set<Block> {
    {r.node, r.data}
  }

  ghost function BlocksOf(list: seq<Rec>): set<Block> {
    set r, b | r in list && b in Pair(r) :: b
  }

  /** The files' bytes are in their data blocks, which are live and have room for them. */
  predicate Intact(mem: nat -> Byte, list: seq<Rec>) {
    forall r | r in list :: Stores(mem, At(r.data), r.entry.data) && |r.entry.data| + HEADER <= r.data.size
  }

  function Entries(list: seq<Rec>): seq<Entry> {
    if list == [] then [] else [list[0].entry] + Entries(list[1..])
  }

  lemma {:induction false} LinkedMore(nodes: map<nat, Node>, p: nat, list: seq<Rec>, a: nat, n: Node)
    requires Linked(nodes, p, list) && forall r | r in list :: At(r.node) != a
    ensures Linked(nodes[a := n], p, list)
    decreases list
  {
    if list != [] { LinkedMore(nodes, nodes[p].next, list[1..], a, n); }
  }

  // ---- Names ----

  /** str_eq: do two NUL-terminated strings agree up to their NULs? */
  method StrEq(a: seq<Byte>, b: seq<Byte>) returns (eq: bool)
    requires 0 in a && 0 in b
    ensures eq <==> CString(a) == CString(b)
  {
    var i: nat := 0;
    while a[i] != 0 && b[i] != 0
      invariant i < |a| && i < |b| && 0 in a[i..] && 0 in b[i..]
      invariant CString(a) == CString(b) <==> CString(a[i..]) == CString(b[i..])
      decreases |a| - i
    {
      Peel(a[i..]);
      Peel(b[i..]);
      assert a[i..][1..] == a[i + 1..] && b[i..][1..] == b[i + 1..];
      SameHeads(a[i], CString(a[i + 1..]), b[i], CString(b[i + 1..]));
      if a[i] != b[i] { return false; }
      i := i + 1;
    }
    eq := a[i] == b[i];
  }

  lemma Peel(s: seq<Byte>)
    requires 0 in s && s[0] != 0
    ensures 0 in s[1..] && CString(s) == [s[0]] + CString(s[1..])
  {
  }

  lemma SameHeads(x: Byte, s: seq<Byte>, y: Byte, t: seq<Byte>)
    ensures [x] + s == [y] + t <==> x == y && s == t
  {
    if [x] + s == [y] + t {
      assert ([x] + s)[0] == ([y] + t)[0];
      assert s == ([x] + s)[1..] && t == ([y] + t)[1..];
    }
  }

  /** The copy of the name in ramfs_create. */
  method CopyName(name: seq<Byte>) returns (copy: seq<Byte>)
    requires 0 in name
    ensures 0 in copy && CString(copy) == Truncated(CString(name)) && |CString(copy)| < NAME_MAX
  {
    copy := [];
    var i: nat := 0;
    while name[i] != 0 && i < NAME_MAX - 1
      invariant i < |name| && 0 in name[i..] && i <= NAME_MAX - 1
      invariant |copy| == i && 0 !in copy && CString(name) == copy + CString(name[i..])
      decreases NAME_MAX - i
    {
      CopyStep(name, copy, i);
      copy := copy + [name[i]];
      i := i + 1;
    }
    Closed(copy);
    TruncatedAt(copy, CString(name[i..]));
    copy := copy + [0];
  }

  lemma CopyStep(name: seq<Byte>, copy: seq<Byte>, i: nat)
    requires i < |name| && name[i] != 0 && 0 in name[i..] && CString(name) == copy + CString(name[i..])
    ensures 0 in name[i + 1..] && CString(name) == copy + [name[i]] + CString(name[i + 1..])
  {
    Peel(name[i..]);
    assert name[i..][1..] == name[i + 1..];
  }

  lemma TruncatedAt(copy: seq<Byte>, rest: seq<Byte>)
    requires |copy| < NAME_MAX && (rest == [] || |copy| == NAME_MAX - 1)
    ensures Truncated(copy + rest) == copy
  {
  }

  lemma {:induction false} Closed(s: seq<Byte>)
    requires 0 !in s
    ensures CString(s + [0]) == s
  {
    if s != [] {
      Closed(s[1..]);
      assert (s + [0])[1..] == s[1..] + [0];
    }
  }

  // ---- The filesystem ----

  /** The outcome of the two calls of kmalloc in ramfs_create: two new blocks, or the live blocks as they were. */
  ghost predicate Obtained(h: Heap, size: Word, h': Heap, f: nat, r: Rec)
    requires Valid(h) && Reaches(h, size)
  {
    if f == 0 then
      Live(h'.blocks) == Live(h.blocks) && Refuses(h, size)
    else
      && !Refuses(h, size)
      && f == At(r.node) && r.node != r.data && Pair(r) !! Live(h.blocks) && Live(h'.blocks) == Live(h.blocks) + Pair(r)
      && r.data.size >= size + HEADER
  }

  lemma NodeFits()
    ensures NoWrap(NODE_SIZE) && BlockSize(NODE_SIZE) + 4095 < WORD
  {
    BlockSizeFits(NODE_SIZE);
  }

  /**
   What ramfs_create may be asked for: the request for the data does not make the new end of the heap wrap around 64
   bits, and its own size does not either, unless it is refused all the same.
   */
  predicate Reaches(h: Heap, size: Word): (r: bool)
    requires Valid(h)
    ensures NoWrap(size) ==> r
  {
    NodeFits();
    MallocGrants(h, NODE_SIZE);
    || Refused(h, NODE_SIZE)
    || (var h1 := Malloc(h, NODE_SIZE).0; InReach(h1, size) && (size + HEADER + 7 < WORD || Refused(h1, size)))
  }

  /** How memory changes when the heap's headers do: any way of storing headers as bytes. */
  type HeaderStore = (map<nat, Header>, map<nat, Header>, nat -> Byte) -> nat -> Byte

  /** Only the bytes of headers that were written change. */
  ghost predicate StoresHeaders(store: HeaderStore) {
    forall before, after, mem, x: nat | !Written(before, after, x) :: store(before, after, mem)(x) == mem(x)
  }

  class FileSystem {
    const heap: KernelHeap
    const store: HeaderStore
    /** The nodes in memory by address, and memory by byte. */
    var nodes: map<nat, Node>
    var mem: nat -> Byte
    var fileList: nat
    ghost var list: seq<Rec>

    ghost predicate Good()
      reads this, heap
    {
      && heap.Good() && StoresHeaders(store)
      && Linked(nodes, fileList, list) && Intact(mem, list) && BlocksOf(list) <= Live(heap.blocks)
    }

    ghost function Contents(): seq<Entry>
      reads this
    {
      Entries(list)
    }

    /** ramfs_init. */
    constructor (heap: KernelHeap, store: HeaderStore, mem: nat -> Byte)
      requires heap.Good() && StoresHeaders(store)
      ensures Good() && this.heap == heap && this.store == store && Contents() == []
    {
      this.heap, this.store, this.mem, fileList, nodes, list := heap, store, mem, 0, map[], [];
    }

    /** A call of kmalloc, with the bytes of the headers it writes: no file changes. */
    method Allocate(size: Word) returns (ptr: nat)
      requires heap.Good() && InReach(heap.State(), size) && StoresHeaders(store)
      requires Intact(mem, list) && BlocksOf(list) <= Live(heap.blocks)
      modifies this`mem, heap
      ensures heap.Good() && (heap.State(), ptr) == Malloc(old(heap.State()), size) && Intact(mem, list)
      ensures nodes == old(nodes) && fileList == old(fileList) && list == old(list)
    {
      ghost var live := Live(heap.blocks);
      var before := heap.headers;
      ptr := heap.Kmalloc(size);
      HeadersSpare(store, before, heap.headers, mem, list, live, heap.heapEnd);
      mem := store(before, heap.headers, mem);
    }

    /** A call of kfree, with the bytes of the headers it writes: no file changes. */
    method Release(ptr: nat, ghost b: Block)
      requires heap.Good() && b in Live(heap.blocks) && ptr == At(b) && StoresHeaders(store)
      requires Intact(mem, list) && BlocksOf(list) <= Live(heap.blocks) - {b}
      modifies this`mem, heap`headers, heap`blocks
      ensures heap.Good() && heap.State() == Free(old(heap.State()), b) && Intact(mem, list)
      ensures nodes == old(nodes) && fileList == old(fileList) && list == old(list)
    {
      FreeKeeps(heap.State(), b);
      var before := heap.headers;
      heap.Kfree(ptr, b);
      HeadersSpare(store, before, heap.headers, mem, list, Live(heap.blocks), heap.heapEnd);
      mem := store(before, heap.headers, mem);
    }

    /** The two calls of kmalloc in ramfs_create; a node without data is given back. */
    method Obtain(size: Word) returns (f: nat, data: nat, ghost r: Rec)
      requires Good() && Reaches(heap.State(), size)
      modifies this`mem, heap
      ensures Good() && Obtained(old(heap.State()), size, heap.State(), f, r) && (f != 0 ==> data == At(r.data))
      ensures nodes == old(nodes) && fileList == old(fileList) && list == old(list)
    {
      NodeFits();
      ghost var h := heap.State();
      MallocGrants(h, NODE_SIZE);
      f := Allocate(NODE_SIZE);
      data := 0;
      r := Rec(Block(0, 0, true), Block(0, 0, true), Named([], []));
      if f == 0 { return; }
      ghost var node := NewBlock(h, NODE_SIZE);
      f, data, r := ObtainData(size, f, node, h);
    }

    method ObtainData(size: Word, node: nat, ghost b: Block, ghost h: Heap) returns (f: nat, data: nat, ghost r: Rec)
      requires Good() && Valid(h) && Reaches(h, size) && InReach(h, NODE_SIZE) && !Refused(h, NODE_SIZE)
      requires heap.State() == Malloc(h, NODE_SIZE).0 && b == NewBlock(h, NODE_SIZE) && node == At(b)
      requires Granted(h, NODE_SIZE, heap.State(), b) && BlocksOf(list) <= Live(h.blocks)
      modifies this`mem, heap
      ensures Good() && Obtained(h, size, heap.State(), f, r) && (f != 0 ==> data == At(r.data))
      ensures nodes == old(nodes) && fileList == old(fileList) && list == old(list)
    {
      ghost var h1 := heap.State();
      r := Rec(b, b, Named([], []));
      MallocGrants(h1, size);
      data := Allocate(size);
      f := node;
      if data == 0 {
        FreeKeeps(heap.State(), b);
        Release(node, b);
        f := 0;
      } else {
        r := r.(data := NewBlock(h1, size));
      }
    }

    /** The copy of the data. */
    method Fill(data: nat, bytes: seq<Byte>)
      modifies this`mem
      ensures Stores(mem, data, bytes)
      ensures forall a: nat | a < data || a >= data + |bytes| :: mem(a) == old(mem)(a)
    {
      for j := 0 to |bytes|
        invariant forall i | 0 <= i < j :: mem(data + i) == bytes[i]
        invariant forall a: nat | a < data || a >= data + j :: mem(a) == old(mem)(a)
      {
        var m, at, v := mem, data + j, bytes[j];
        mem := a => if a == at then v else m(a);
      }
    }

    /** ramfs_create: the node's address, or 0. The new file hides older ones of the same name. */
    method Create(name: seq<Byte>, bytes: seq<Byte>) returns (f: nat)
      requires Good() && 0 in name && |bytes| < WORD && Reaches(heap.State(), |bytes|)
      modifies this, heap
      ensures Good()
      ensures Contents() == if f == 0 then old(Contents())
                            else [Named(Truncated(CString(name)), bytes)] + old(Contents())
      ensures f == 0 ==> Live(heap.blocks) == old(Live(heap.blocks))
      ensures f == 0 <==> Refuses(old(heap.State()), |bytes|)
      ensures f != 0 ==> Lookup(Contents(), CString(name)) ==
                           if |CString(name)| <= 63 then Some(Named(CString(name), bytes)) else None
    {
      NamesFit(nodes, fileList, list);
      FoundUnderItsName(Contents(), CString(name), bytes);
      var data;
      ghost var r;
      f, data, r := Obtain(|bytes|);
      if f == 0 { return; }
      var copy := CopyName(name);
      r := r.(entry := Named(CString(copy), bytes));
      Install(f, copy, data, bytes, r, old(Live(heap.blocks)));
    }

    /** The end of ramfs_create: the data is copied and the node becomes the head of the list. */
    method Install(f: nat, copy: seq<Byte>, data: nat, bytes: seq<Byte>, ghost r: Rec, ghost live: set<Block>)
      requires heap.Good() && StoresHeaders(store)
      requires Linked(nodes, fileList, list) && Intact(mem, list) && BlocksOf(list) <= live
      requires Live(heap.blocks) == live + Pair(r) && Pair(r) !! live && r.node != r.data && f == At(r.node)
      requires data == At(r.data)
      requires |bytes| < WORD && |bytes| + HEADER <= r.data.size && 0 in copy && |CString(copy)| < NAME_MAX
      requires r.entry == Named(CString(copy), bytes)
      modifies this`nodes, this`mem, this`fileList, this`list
      ensures Good() && list == [r] + old(list)
    {
      Fill(data, bytes);
      StillIntact(heap.State(), list, r, old(mem), mem);
      NewNode(heap.State(), list, r);
      LinkedMore(nodes, fileList, list, f, Node(copy, data, |bytes|, fileList));
      nodes := nodes[f := Node(copy, data, |bytes|, fileList)];
      fileList := f;
      list := [r] + list;
    }

    /** ramfs_find: the node of the newest file of that name, with its bytes in memory, or 0. */
    method Find(name: seq<Byte>) returns (f: nat)
      requires Good() && 0 in name
      ensures match Lookup(Contents(), CString(name))
              case None => f == 0
              case Some(e) =>
                && f in nodes && nodes[f].size == |e.data|
                && forall i | 0 <= i < |e.data| :: mem(nodes[f].data + i) == e.data[i]
    {
      f := fileList;
      ghost var k := 0;
      assert list[0..] == list;
      while f != 0
        invariant k <= |list| && Linked(nodes, f, list[k..])
        invariant Lookup(Contents(), CString(name)) == Lookup(Entries(list[k..]), CString(name))
        decreases |list| - k
      {
        LookupOn(list, k, CString(name));
        assert list[k..][1..] == list[k + 1..] && list[k..][0] in list;
        var eq := StrEq(nodes[f].name, name);
        if eq { return; }
        f := nodes[f].next;
        k := k + 1;
      }
    }
  }

  /** What the walk of ramfs_find has passed holds nothing of that name. */
  lemma LookupOn(list: seq<Rec>, k: nat, name: seq<Byte>)
    requires k < |list|
    ensures list[k].entry.name == name ==> Lookup(Entries(list[k..]), name) == Some(list[k].entry)
    ensures list[k].entry.name != name ==> Lookup(Entries(list[k..]), name) == Lookup(Entries(list[k + 1..]), name)
  {
    assert list[k..][1..] == list[k + 1..];
    assert Entries(list[k..])[1..] == Entries(list[k + 1..]);
  }

  /** Headers written off the payloads of live blocks are off every file's bytes. */
  lemma HeadersSpare(store: HeaderStore, before: map<nat, Header>, after: map<nat, Header>, mem: nat -> Byte,
                     list: seq<Rec>,
                     live: set<Block>, end: nat)
    requires StoresHeaders(store) && OffPayloads(before, after, live, end) && Intact(mem, list)
    requires BlocksOf(list) <= live
    ensures Intact(store(before, after, mem), list)
  {
    forall r | r in list
      ensures Stores(store(before, after, mem), At(r.data), r.entry.data)
    {
      assert r.data in Pair(r);
      forall x: nat | At(r.data) <= x < At(r.data) + |r.entry.data|
        ensures store(before, after, mem)(x) == mem(x)
      {
        NotWritten(before, after, live, end, r.data, x);
      }
    }
  }

  /** Writing into a new block touches no file. */
  lemma StillIntact(h: Heap, list: seq<Rec>, r: Rec, mem: nat -> Byte, mem': nat -> Byte)
    requires Valid(h) && Intact(mem, list) && BlocksOf(list) <= Live(h.blocks) && Pair(r) <= Live(h.blocks)
    requires Pair(r) !! BlocksOf(list) && Stores(mem', At(r.data), r.entry.data)
    requires |r.entry.data| + HEADER <= r.data.size
    requires forall a: nat | a < At(r.data) || a >= At(r.data) + |r.entry.data| :: mem'(a) == mem(a)
    ensures Intact(mem', [r] + list)
  {
    forall x | x in list
      ensures Stores(mem', At(x.data), x.entry.data)
    {
      assert x.data in Pair(x) && r.data in Pair(r);
      PayloadApart(h, x.data, r.data);
    }
  }

  lemma NewNode(h: Heap, list: seq<Rec>, r: Rec)
    requires Valid(h) && BlocksOf(list) <= Live(h.blocks) && Pair(r) <= Live(h.blocks) && Pair(r) !! BlocksOf(list)
    ensures forall x | x in list :: At(x.node) != At(r.node)
    ensures BlocksOf([r] + list) <= Live(h.blocks)
  {
    forall x | x in list
      ensures At(x.node) != At(r.node)
    {
      assert x.node in Pair(x) && r.node in Pair(r);
      PayloadApart(h, x.node, r.node);
    }
  }

  /** When ramfs_create fails: no room for the node or for the data, or no data. */
  predicate Refuses(h: Heap, size: Word)
    requires Valid(h) && Reaches(h, size)
  {
    NodeFits();
    MallocGrants(h, NODE_SIZE);
    Refused(h, NODE_SIZE) || Refused(Malloc(h, NODE_SIZE).0, size)
  }

  // ---- What the association list promises ----

  /** Later creates hide a file only if one of them stored the same name; then the newest of those is found. */
  lemma {:induction false} NewestWins(newer: seq<Entry>, older: seq<Entry>, name: seq<Byte>)
    ensures Lookup(newer + older, name) ==
            if Lookup(newer, name).Some? then Lookup(newer, name) else Lookup(older, name)
    ensures Lookup(newer, name).Some? <==> exists e | e in newer :: e.name == name
  {
    if newer == [] {
      assert newer + older == older;
    } else {
      NewestWins(newer[1..], older, name);
      assert (newer + older)[1..] == newer[1..] + older;
      assert newer == [newer[0]] + newer[1..];
    }
  }

  /** A file is found under the name it was created with exactly when that name has at most 63 characters. */
  lemma FoundUnderItsName(older: seq<Entry>, name: seq<Byte>, data: seq<Byte>)
    requires forall e | e in older :: |e.name| < NAME_MAX
    ensures var es := [Named(Truncated(name), data)] + older;
            if |name| <= 63 then Lookup(es, name) == Some(Named(name, data)) else Lookup(es, name) == None
  {
    var e := Named(Truncated(name), data);
    NewestWins([e], older, name);
    assert e in [e];
    if |name| >= NAME_MAX { NewestWins(older, [], name); }
  }

  /** The names in the list are the ones truncation allows. */
  lemma {:induction false} NamesFit(nodes: map<nat, Node>, p: nat, list: seq<Rec>)
    requires Linked(nodes, p, list)
    ensures forall e | e in Entries(list) :: |e.name| < NAME_MAX
    decreases list
  {
    if list != [] { NamesFit(nodes, nodes[p].next, list[1..]); }
  }

  /** The files exec sees: same names, sizes and bytes. */
  predicate Mirrors(f: File, e: Entry) {
    f.name == e.name && f.data.size == |e.data| && forall i | 0 <= i < |e.data| :: f.data.image(i) == e.data[i]
  }

  /** What exec finds in its view of the files is what ramfs_find finds. */
  lemma {:induction false} FindMirrors(files: seq<File>, es: seq<Entry>, name: seq<Byte>)
    requires |files| == |es| && forall i | 0 <= i < |es| :: Mirrors(files[i], es[i])
    ensures match Lookup(es, name)
            case None => Lookup(files, name) == None
            case Some(e) => Lookup(files, name).Some? && Mirrors(Lookup(files, name).value, e)
    decreases |es|
  {
    if es != [] { FindMirrors(files[1..], es[1..], name); }
  }
}
