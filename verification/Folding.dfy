/** Runs as left folds: the laws every run obeys, whatever its states and steps are. */
module Folding {

  ghost function Fold<S, L>(step: (S, L) -> S, s: S, ls: seq<L>): S {
    if ls == [] then s else step(Fold(step, s, ls[..|ls| - 1]), ls[|ls| - 1])
  }

  lemma Snoc<L>(a: seq<L>, b: seq<L>)
    ensures b == [] ==> a + b == a
    ensures b != [] ==> (a + b)[..|a + b| - 1] == a + b[..|b| - 1] && (a + b)[|a + b| - 1] == b[|b| - 1]
    ensures |b| == 1 ==> (a + b)[..|a + b| - 1] == a
  {
  }

  lemma FoldLast<S, L>(step: (S, L) -> S, s: S, ls: seq<L>, l: L)
    ensures Fold(step, s, ls + [l]) == step(Fold(step, s, ls), l)
  {
    Snoc(ls, [l]);
  }

  lemma {:induction false} FoldAppends<S, L>(step: (S, L) -> S, s: S, a: seq<L>, b: seq<L>)
    ensures Fold(step, s, a + b) == Fold(step, Fold(step, s, a), b)
  {
    Snoc(a, b);
    if b != [] { FoldAppends(step, s, a, b[..|b| - 1]); }
  }

  /** What one step keeps, every run keeps. */
  lemma {:induction false} FoldKeeps<S(!new), L(!new)>(step: (S, L) -> S, inv: S -> bool, s: S, ls: seq<L>)
    requires inv(s) && forall x, l :: inv(x) ==> inv(step(x, l))
    ensures inv(Fold(step, s, ls))
  {
    if ls != [] { FoldKeeps(step, inv, s, ls[..|ls| - 1]); }
  }

  /** A run stays where every step leaves the state alone. */
  lemma {:induction false} FoldStuck<S(!new), L(!new)>(step: (S, L) -> S, s: S, ls: seq<L>)
    requires forall l :: step(s, l) == s
    ensures Fold(step, s, ls) == s
  {
    if ls != [] { FoldStuck(step, s, ls[..|ls| - 1]); }
  }

  // ---- Runs whose round `i` is given by a function ----

  function Rounds<L>(f: nat -> L, n: nat): (ls: seq<L>)
    ensures |ls| == n && forall i: nat | i < n :: ls[i] == f(i)
  {
    if n == 0 then [] else Rounds(f, n - 1) + [f(n - 1)]
  }

  lemma RoundsSplit<L>(f: nat -> L, n: nat, m: nat)
    requires n <= m
    ensures Rounds(f, m) == Rounds(f, n) + Rounds(f, m)[n..]
  {
  }

  lemma FoldRound<S, L>(step: (S, L) -> S, s: S, f: nat -> L, n: nat)
    ensures Fold(step, s, Rounds(f, n + 1)) == step(Fold(step, s, Rounds(f, n)), f(n))
  {
    FoldLast(step, s, Rounds(f, n), f(n));
  }

  /** Stopping early where nothing can change any more loses nothing. */
  lemma FoldStuckEarly<S(!new), L(!new)>(step: (S, L) -> S, s: S, f: nat -> L, n: nat, m: nat)
    requires n <= m && forall l :: step(Fold(step, s, Rounds(f, n)), l) == Fold(step, s, Rounds(f, n))
    ensures Fold(step, s, Rounds(f, m)) == Fold(step, s, Rounds(f, n))
  {
    RoundsSplit(f, n, m);
    FoldAppends(step, s, Rounds(f, n), Rounds(f, m)[n..]);
    FoldStuck(step, Fold(step, s, Rounds(f, n)), Rounds(f, m)[n..]);
  }

  // ---- Concatenation ----

  function Concat<L>(parts: seq<seq<L>>): seq<L> {
    if parts == [] then [] else Concat(parts[..|parts| - 1]) + parts[|parts| - 1]
  }

  lemma {:induction false} InConcat<L>(parts: seq<seq<L>>, n: nat) returns (k: nat, i: nat)
    requires n < |Concat(parts)|
    ensures k < |parts| && i < |parts[k]| && Concat(parts)[n] == parts[k][i]
  {
    var init := parts[..|parts| - 1];
    if n < |Concat(init)| {
      k, i := InConcat(init, n);
    } else {
      k, i := |parts| - 1, n - |Concat(init)|;
    }
  }

  function MapSeq<A, B>(f: A -> B, xs: seq<A>): (ys: seq<B>)
    ensures |ys| == |xs| && forall i | 0 <= i < |xs| :: ys[i] == f(xs[i])
  {
    if xs == [] then [] else MapSeq(f, xs[..|xs| - 1]) + [f(xs[|xs| - 1])]
  }

  // ---- Permutations ----

  lemma SameMembers<T>(a: seq<T>, b: seq<T>)
    requires multiset(a) == multiset(b)
    ensures |a| == |b| && forall x :: x in a <==> x in b
  {
    assert |multiset(a)| == |a| && |multiset(b)| == |b|;
    forall x
      ensures x in a <==> x in b
    {
      assert x in multiset(a) <==> x in a;
    }
  }

  lemma WithoutAt<T>(b: seq<T>, i: nat)
    requires i < |b|
    ensures multiset(b) == multiset(b[..i] + b[i + 1..]) + multiset{b[i]}
  {
    assert b == b[..i] + [b[i]] + b[i + 1..];
  }

  /** The last element of one list, found in a permutation of it. */
  lemma TakeOut<T>(a: seq<T>, b: seq<T>) returns (i: nat)
    requires multiset(a) == multiset(b) && a != []
    ensures i < |b| && b[i] == a[|a| - 1] && multiset(a[..|a| - 1]) == multiset(b[..i] + b[i + 1..])
  {
    SameMembers(a, b);
    assert a[|a| - 1] in b;
    i :| 0 <= i < |b| && b[i] == a[|a| - 1];
    WithoutAt(b, i);
    LastOut(a);
    Cancel(multiset(a[..|a| - 1]), multiset(b[..i] + b[i + 1..]), b[i]);
  }

  lemma LastOut<T>(a: seq<T>)
    requires a != []
    ensures multiset(a) == multiset(a[..|a| - 1]) + multiset{a[|a| - 1]}
  {
    assert a == a[..|a| - 1] + [a[|a| - 1]];
  }

  lemma Cancel<T>(a: multiset<T>, b: multiset<T>, x: T)
    requires a + multiset{x} == b + multiset{x}
    ensures a == b
  {
    assert a == a + multiset{x} - multiset{x} == b + multiset{x} - multiset{x} == b;
  }

  lemma {:induction false} ConcatWithout<L>(parts: seq<seq<L>>, i: nat)
    requires i < |parts|
    ensures multiset(Concat(parts)) == multiset(Concat(parts[..i] + parts[i + 1..])) + multiset(parts[i])
  {
    var init, last := parts[..|parts| - 1], parts[|parts| - 1];
    var rest := parts[..i] + parts[i + 1..];
    if i == |parts| - 1 {
      assert rest == init;
    } else {
      ConcatWithout(init, i);
      assert rest[..|rest| - 1] == init[..i] + init[i + 1..] && rest[|rest| - 1] == last;
    }
  }

  lemma {:induction false} ConcatPermutes<L>(a: seq<seq<L>>, b: seq<seq<L>>)
    requires multiset(a) == multiset(b)
    ensures multiset(Concat(a)) == multiset(Concat(b))
  {
    SameMembers(a, b);
    if a != [] {
      var i := TakeOut(a, b);
      ConcatPermutes(a[..|a| - 1], b[..i] + b[i + 1..]);
      ConcatWithout(b, i);
    }
  }

  lemma SkipsAt<T>(ys: seq<T>, zs: seq<T>, i: nat)
    requires i < |ys| && |zs| == |ys| - 1 && forall k | 0 <= k < |zs| :: zs[k] == ys[if k < i then k else k + 1]
    ensures zs == ys[..i] + ys[i + 1..]
  {
  }

  lemma MapWithout<A, B>(f: A -> B, b: seq<A>, i: nat)
    requires i < |b|
    ensures multiset(MapSeq(f, b)) == multiset(MapSeq(f, b[..i] + b[i + 1..])) + multiset{f(b[i])}
  {
    var ys, rest := MapSeq(f, b), b[..i] + b[i + 1..];
    var zs := MapSeq(f, rest);
    forall k | 0 <= k < |rest|
      ensures zs[k] == ys[if k < i then k else k + 1]
    {
      assert rest[k] == b[if k < i then k else k + 1];
    }
    SkipsAt(ys, zs, i);
    WithoutAt(ys, i);
  }

  lemma {:induction false} MapPermutes<A, B>(f: A -> B, a: seq<A>, b: seq<A>)
    requires multiset(a) == multiset(b)
    ensures multiset(MapSeq(f, a)) == multiset(MapSeq(f, b))
  {
    SameMembers(a, b);
    if a != [] {
      var i := TakeOut(a, b);
      MapPermutes(f, a[..|a| - 1], b[..i] + b[i + 1..]);
      MapWithout(f, b, i);
    }
  }

  lemma {:induction false} Twice<T>(a: seq<T>, x: T) returns (i: nat, j: nat)
    requires multiset(a)[x] >= 2
    ensures i < j < |a| && a[i] == a[j] == x
  {
    var init, last := a[..|a| - 1], a[|a| - 1];
    assert a == init + [last];
    if last == x {
      assert x in multiset(init);
      i :| 0 <= i < |init| && init[i] == x;
      j := |init|;
    } else {
      i, j := Twice(init, x);
    }
  }

  lemma {:induction false} SeenTwice<T>(a: seq<T>, i: nat, j: nat)
    requires i < j < |a| && a[i] == a[j]
    ensures multiset(a)[a[i]] >= 2
  {
    var init, last := a[..|a| - 1], a[|a| - 1];
    assert a == init + [last];
    if j == |a| - 1 {
      assert init[i] in multiset(init);
    } else {
      SeenTwice(init, i, j);
    }
  }
}
