/** The files of the RAM filesystem as an association list, newest first (kernel/src/ramfs.c). */
module Files {
  import opened Bits
  import opened Loading
  import opened Elf

  /** Something under a name. */
  datatype Named<+T> = Named(name: seq<Byte>, data: T)

  /** The newest of that name. */
  function Lookup<T>(entries: seq<Named<T>>, name: seq<Byte>): Option<Named<T>> {
    if entries == [] then None
    else if entries[0].name == name then Some(entries[0])
    else Lookup(entries[1..], name)
  }

  /** What a lookup finds is the first of that name, and it finds something if there is one. */
  lemma {:induction false} LookupFinds<T>(entries: seq<Named<T>>, name: seq<Byte>) returns (k: nat)
    ensures k <= |entries| && forall i | 0 <= i < k :: entries[i].name != name
    ensures k < |entries| ==> entries[k].name == name
    ensures Lookup(entries, name) == if k < |entries| then Some(entries[k]) else None
  {
    if entries == [] || entries[0].name == name {
      k := 0;
    } else {
      k := LookupFinds(entries[1..], name);
      k := k + 1;
    }
  }

  /** A file as exec sees it: what is read at each offset from its data pointer, and its size. */
  datatype Program = Program(image: Image, size: Word)

  type File = Named<Program>

  /** A C string: the bytes before the first NUL. */
  function CString(s: seq<Byte>): seq<Byte> {
    if s == [] || s[0] == 0 then [] else [s[0]] + CString(s[1..])
  }

  /** A C string ends at its first NUL, or with the buffer. */
  lemma {:induction false} CStringIs(s: seq<Byte>, c: seq<Byte>)
    requires 0 !in c && c <= s && (|c| < |s| ==> s[|c|] == 0)
    ensures CString(s) == c
  {
    if c != [] {
      CStringIs(s[1..], c[1..]);
      assert c == [c[0]] + c[1..];
    }
  }
}
