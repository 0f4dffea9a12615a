/**
  The union-find structure of `tools/UnionFind.py`: a parent map kept in
  dictionary insertion order, with recursive `find` (path compression), the
  loop `find_alt`, `union` and `groups`. The structure is functional here:
  every operation returns the updated forest.
  */
module UnionFind {

  import opened Seqs

  /** The forest: `keys` is the insertion order of the parent dictionary. */
  datatype Forest<T(==,!new)> = Forest(keys: seq<T>, parent: map<T, T>)

  predicate NoDup<T(==,!new)>(xs: seq<T>)
  {
    forall i, j :: 0 <= i < j < |xs| ==> xs[i] != xs[j]
  }

  /** Every parent is itself a key. */
  predicate Closed<T(==,!new)>(p: map<T, T>)
  {
    p.Values <= p.Keys
  }

  /** `rank` strictly decreases along every parent link that is not a self-loop. */
  ghost predicate Ranked<T(!new)>(p: map<T, T>, rank: map<T, nat>)
  {
    p.Keys <= rank.Keys && p.Values <= rank.Keys && forall x {:trigger p[x]} :: x in p && p[x] != x ==> rank[p[x]] < rank[x]
  }

  /** Following parents from any key ends at a root: no cycles other than self-loops. */
  ghost predicate Acyclic<T(!new)>(p: map<T, T>)
  {
    Closed(p) && exists rank :: Ranked(p, rank)
  }

  ghost predicate Valid<T(!new)>(f: Forest<T>)
  {
    NoDup(f.keys) && (set x | x in f.keys) == f.parent.Keys && Acyclic(f.parent)
  }

  /** One ranking of an acyclic parent map, the measure the recursions below descend. */
  ghost function RankOf<T(!new)>(p: map<T, T>): (rank: map<T, nat>)
    requires exists rank :: Ranked(p, rank)
    ensures Ranked(p, rank)
  {
    var rank :| Ranked(p, rank); rank
  }

  /** The root of `x`'s tree, reached by following parent links without changing them. */
  ghost function Root<T(!new)>(p: map<T, T>, x: T): (r: T)
    requires Acyclic(p) && x in p
    ensures r in p && p[r] == r
    decreases RankOf(p)[x]
  {
    if p[x] == x then x else Root(p, p[x])
  }

  /** The roots of all keys: one per class. */
  ghost function RootSet<T(!new)>(p: map<T, T>): set<T>
    requires Acyclic(p)
  {
    set x | x in p :: Root(p, x)
  }

  /** `q` has the keys of `p` and gives every key the same root. */
  ghost predicate SameRoots<T(!new)>(p: map<T, T>, q: map<T, T>)
    requires Acyclic(p) && Acyclic(q)
  {
    p.Keys == q.Keys && forall x {:trigger Root(q, x)} :: x in p ==> Root(q, x) == Root(p, x)
  }

  /** The keys of `xs` once each, at their first occurrence; a list without repeats is kept as it is. */
  function Dedup<T(==,!new)>(xs: seq<T>): (r: seq<T>)
    ensures NoDup(r)
    ensures forall x :: x in r <==> x in xs
    ensures NoDup(xs) ==> r == xs
  {
    assert [] + xs == xs;
    DedupInto([], xs)
  }

  function DedupInto<T(==,!new)>(acc: seq<T>, xs: seq<T>): (r: seq<T>)
    requires NoDup(acc)
    ensures NoDup(r)
    ensures forall x :: x in r <==> x in acc || x in xs
    ensures NoDup(acc + xs) ==> r == acc + xs
    decreases |xs|
  {
    if |xs| == 0 then
      assert acc + xs == acc;
      acc
    else if xs[0] in acc then
      assert !NoDup(acc + xs) by {
        var k :| 0 <= k < |acc| && acc[k] == xs[0];
        assert (acc + xs)[k] == (acc + xs)[|acc|];
      }
      DedupInto(acc, xs[1..])
    else
      assert acc + xs == (acc + [xs[0]]) + xs[1..];
      DedupInto(acc + [xs[0]], xs[1..])
  }

  /** `UnionFind(data)`: every element is its own parent, hence a root of a class of its own. */
  function Init<T(==,!new)>(data: seq<T>): (f: Forest<T>)
    ensures Valid(f)
    ensures NoDup(data) ==> f.keys == data
    ensures forall x :: x in f.parent <==> x in data
    ensures forall x :: x in f.parent ==> f.parent[x] == x && Root(f.parent, x) == x
  {
    var p := map x | x in data :: x;
    assert Ranked(p, map x | x in data :: 0);
    Forest(Dedup(data), p)
  }

  /** A root's rank is below the rank of every other node of its tree. */
  lemma {:induction false} RootBelow<T(!new)>(p: map<T, T>, rank: map<T, nat>, x: T)
    requires Closed(p) && Ranked(p, rank) && x in p
    ensures Root(p, x) == x || rank[Root(p, x)] < rank[x]
    decreases rank[x]
  {
    if p[x] != x {
      RootBelow(p, rank, p[x]);
    }
  }

  /** Pointing `e` straight at its root keeps the ranking. */
  lemma RedirectRanked<T(!new)>(p: map<T, T>, rank: map<T, nat>, e: T)
    requires Closed(p) && Ranked(p, rank) && e in p
    ensures Closed(p[e := Root(p, e)]) && Ranked(p[e := Root(p, e)], rank)
  {
    RootBelow(p, rank, e);
  }

  /** Pointing `e` straight at its root leaves the root of every key where it was. */
  lemma {:induction false} RedirectRoot<T(!new)>(p: map<T, T>, rank: map<T, nat>, e: T, x: T)
    requires Closed(p) && Ranked(p, rank) && e in p && x in p
    requires Closed(p[e := Root(p, e)]) && Ranked(p[e := Root(p, e)], rank)
    ensures Root(p[e := Root(p, e)], x) == Root(p, x)
    decreases rank[x]
  {
    var root := Root(p, e);
    var q := p[e := root];
    if x == e {
      if root != e {
        assert q[root] == root;
        assert Root(q, e) == Root(q, root) == root;
      } else {
        assert q == p;
      }
    } else if p[x] != x {
      RedirectRoot(p, rank, e, p[x]);
    }
  }

  /**
    `find`: the root of `e`, together with the compressed map in which every
    node visited points straight at that root. Every key keeps its root, so
    the classes do not change.
    */
  function FindIn<T(==,!new)>(p: map<T, T>, e: T): (r: (T, map<T, T>))
    requires Acyclic(p) && e in p
    ensures r.0 == Root(p, e)
    ensures r.1.Keys == p.Keys && Closed(r.1) && Ranked(r.1, RankOf(p))
    ensures r.1[e] == r.0 && r.1[r.0] == r.0
    ensures forall x :: x in p && r.1[x] != p[x] ==> r.1[x] == r.0
    ensures SameRoots(p, r.1)
    decreases RankOf(p)[e]
  {
    if p[e] == e then (e, p)
    else
      var (root, p1) := FindIn(p, p[e]);
      assert Root(p1, e) == root;
      RedirectRanked(p1, RankOf(p), e);
      forall x | x in p1
        ensures Root(p1[e := root], x) == Root(p1, x)
      {
        RedirectRoot(p1, RankOf(p), e, x);
      }
      (root, p1[e := root])
  }

  /** `find` on a forest: the root, and the forest after compression. */
  function Find<T(==,!new)>(f: Forest<T>, e: T): (r: (T, Forest<T>))
    requires Valid(f) && e in f.parent
    ensures Valid(r.1) && r.1.keys == f.keys
    ensures r.0 == Root(f.parent, e) && r.1.parent[r.0] == r.0
    ensures r.1.parent[e] == r.0
    ensures SameRoots(f.parent, r.1.parent)
  {
    var (root, p) := FindIn(f.parent, e);
    (root, Forest(f.keys, p))
  }

  /**
    `find_alt`: the loop meant to split paths. Its tuple assignment writes
    `parent[next] := parent[next]` after moving to `next`, so it returns the
    root and leaves the forest exactly as it was.
    */
  method FindAlt<T(==,!new)>(f: Forest<T>, e: T) returns (root: T, f': Forest<T>)
    requires Valid(f) && e in f.parent
    ensures root == Root(f.parent, e)
    ensures f' == f
  {
    var elem := e;
    var parent := f.parent;
    while parent[elem] != elem
      invariant parent == f.parent && elem in parent
      invariant Root(parent, elem) == Root(f.parent, e)
      decreases RankOf(f.parent)[elem]
    {
      var next, grand := parent[elem], parent[parent[elem]];
      elem := next;
      parent := parent[elem := grand];
    }
    root := elem;
    f' := Forest(f.keys, parent);
  }

  /**
    Linking root `r1` under root `r2` of another tree gives every key of
    `r1`'s class the root `r2` and leaves every other key's root alone.
    */
  lemma LinkRanked<T(!new)>(p: map<T, T>, rank: map<T, nat>, r1: T, r2: T)
    requires Closed(p) && Ranked(p, rank)
    requires r1 in p && r2 in p && p[r1] == r1 && p[r2] == r2 && r1 != r2
    ensures Closed(p[r1 := r2])
    ensures Ranked(p[r1 := r2], map x | x in rank :: if x in p && Root(p, x) == r1 then rank[x] + rank[r2] + 1 else rank[x])
  {
    var q := p[r1 := r2];
    var rank' := map x | x in rank :: if x in p && Root(p, x) == r1 then rank[x] + rank[r2] + 1 else rank[x];
    forall x | x in q && q[x] != x
      ensures q[x] in rank' && rank'[q[x]] < rank'[x]
    {
      if x != r1 {
        assert Root(p, x) == Root(p, p[x]);
      }
    }
  }

  lemma {:induction false} LinkRoot<T(!new)>(p: map<T, T>, rank: map<T, nat>, r1: T, r2: T, x: T)
    requires Closed(p) && Ranked(p, rank)
    requires r1 in p && r2 in p && p[r1] == r1 && p[r2] == r2 && r1 != r2 && x in p
    requires Acyclic(p[r1 := r2])
    ensures Root(p[r1 := r2], x) == if Root(p, x) == r1 then r2 else Root(p, x)
    decreases rank[x]
  {
    var q := p[r1 := r2];
    if x == r1 {
      assert Root(q, r1) == Root(q, r2) == r2;
    } else if p[x] != x {
      LinkRoot(p, rank, r1, r2, p[x]);
    }
  }

  /**
    `union` on the parent map: find both roots (compressing both paths); if
    they differ, link the first under the second.
    */
  function UnionIn<T(==,!new)>(p: map<T, T>, a: T, b: T): (r: (bool, map<T, T>))
    requires Acyclic(p) && a in p && b in p
    ensures Acyclic(r.1) && r.1.Keys == p.Keys
    ensures !r.0 <==> Root(p, a) == Root(p, b)
    ensures forall x {:trigger Root(r.1, x)} :: x in p ==>
      Root(r.1, x) == if r.0 && Root(p, x) == Root(p, a) then Root(p, b) else Root(p, x)
  {
    var (r1, p1) := FindIn(p, a);
    assert Acyclic(p1) && SameRoots(p, p1);
    var (r2, p2) := FindIn(p1, b);
    assert Acyclic(p2) && SameRoots(p1, p2);
    assert r2 == Root(p, b) && Root(p2, a) == r1;
    assert forall x {:trigger Root(p2, x)} :: x in p ==> Root(p2, x) == Root(p, x);
    if r1 == r2 then (false, p2)
    else
      Link(p2, r1, r2);
      (true, p2[r1 := r2])
  }

  /**
    `union`: the answer is `false` exactly when the two elements were
    already in one class; on `true` exactly the two classes of `a` and `b`
    become one, with `b`'s root, and every other class is left alone.
    */
  function Union<T(==,!new)>(f: Forest<T>, a: T, b: T): (r: (bool, Forest<T>))
    requires Valid(f) && a in f.parent && b in f.parent
    ensures Valid(r.1) && r.1.keys == f.keys && r.1.parent.Keys == f.parent.Keys
    ensures !r.0 <==> Root(f.parent, a) == Root(f.parent, b)
    ensures forall x {:trigger Root(r.1.parent, x)} :: x in f.parent ==>
      Root(r.1.parent, x) == if r.0 && Root(f.parent, x) == Root(f.parent, a) then Root(f.parent, b) else Root(f.parent, x)
  {
    var (merged, p) := UnionIn(f.parent, a, b);
    (merged, Forest(f.keys, p))
  }

  /** Linking root `r1` under another root `r2`: `r1`'s class takes root `r2`, every other key keeps its root. */
  lemma Link<T(!new)>(p: map<T, T>, r1: T, r2: T)
    requires Acyclic(p) && r1 in p && r2 in p && p[r1] == r1 && p[r2] == r2 && r1 != r2
    ensures Acyclic(p[r1 := r2])
    ensures forall x {:trigger Root(p[r1 := r2], x)} :: x in p ==> Root(p[r1 := r2], x) == if Root(p, x) == r1 then r2 else Root(p, x)
  {
    var rank := RankOf(p);
    LinkRanked(p, rank, r1, r2);
    forall x | x in p
      ensures Root(p[r1 := r2], x) == if Root(p, x) == r1 then r2 else Root(p, x)
    {
      LinkRoot(p, rank, r1, r2, x);
    }
  }

  /** A successful union removes exactly one root, `a`'s; a failed one keeps them all. */
  lemma UnionClasses<T(!new)>(f: Forest<T>, a: T, b: T)
    requires Valid(f) && a in f.parent && b in f.parent
    ensures var (merged, f') := Union(f, a, b);
      RootSet(f'.parent) == if merged then RootSet(f.parent) - {Root(f.parent, a)} else RootSet(f.parent)
  {
    var (merged, f') := Union(f, a, b);
    var ra, rb := Root(f.parent, a), Root(f.parent, b);
    forall y | y in RootSet(f'.parent)
      ensures y in RootSet(f.parent) && (merged ==> y != ra)
    {
      var x :| x in f'.parent && Root(f'.parent, x) == y;
    }
    forall y | y in RootSet(f.parent) && (merged ==> y != ra)
      ensures y in RootSet(f'.parent)
    {
      var x :| x in f.parent && Root(f.parent, x) == y;
      assert Root(f'.parent, x) == y;
    }
  }

  /** The roots of a list of `(root, members)` entries. */
  function RootList<T>(acc: seq<(T, seq<T>)>): (r: seq<T>)
    ensures |r| == |acc| && forall i :: 0 <= i < |acc| ==> r[i] == acc[i].0
  {
    if |acc| == 0 then [] else [acc[0].0] + RootList(acc[1..])
  }

  /** The member lists of a list of `(root, members)` entries. */
  function Members<T>(acc: seq<(T, seq<T>)>): (r: seq<seq<T>>)
    ensures |r| == |acc| && forall i :: 0 <= i < |acc| ==> r[i] == acc[i].1
  {
    if |acc| == 0 then [] else [acc[0].1] + Members(acc[1..])
  }

  /**
    `groups[root].append(x)` on a dictionary of lists kept in insertion
    order: append to the entry of `root`, or open a new entry at the end.
    */
  function AddTo<T(==,!new)>(acc: seq<(T, seq<T>)>, root: T, x: T): (r: seq<(T, seq<T>)>)
    requires NoDup(RootList(acc))
    ensures root in RootList(acc) ==> |r| == |acc|
    ensures root !in RootList(acc) ==> |r| == |acc| + 1
    ensures |r| == |acc| + 1 ==> r[|acc|] == (root, [x])
    ensures forall i :: 0 <= i < |acc| ==> r[i].0 == acc[i].0
    ensures forall i :: 0 <= i < |acc| ==> r[i].1 == if acc[i].0 == root then acc[i].1 + [x] else acc[i].1
    decreases |acc|
  {
    RootListCons(acc);
    if |acc| == 0 then [(root, [x])]
    else if acc[0].0 == root then
      var r := [(root, acc[0].1 + [x])] + acc[1..];
      assert RootList(acc)[0] == root;
      forall i | 1 <= i < |acc| ensures r[i] == acc[i] && acc[i].0 != root {
        assert RootList(acc)[0] != RootList(acc)[i];
      }
      r
    else
      RootListTail(acc);
      [acc[0]] + AddTo(acc[1..], root, x)
  }

  lemma RootListCons<T>(acc: seq<(T, seq<T>)>)
    ensures |acc| > 0 ==> RootList(acc) == [acc[0].0] + RootList(acc[1..])
  {
  }

  /** Dropping the first entry keeps the roots distinct. */
  lemma RootListTail<T(!new)>(acc: seq<(T, seq<T>)>)
    requires |acc| > 0 && NoDup(RootList(acc))
    ensures NoDup(RootList(acc[1..]))
  {
    RootListCons(acc);
    NoDupTail(RootList(acc));
  }

  lemma NoDupTail<T(!new)>(xs: seq<T>)
    requires |xs| > 0 && NoDup(xs)
    ensures NoDup(xs[1..])
  {
    forall i, j | 0 <= i < j < |xs| - 1 ensures xs[1..][i] != xs[1..][j] {
      assert xs[1..][i] == xs[i + 1] && xs[1..][j] == xs[j + 1];
    }
  }

  /** Adding `x` to a group list adds exactly one `x` to its members. */
  lemma {:induction false} AddToMembers<T(!new)>(acc: seq<(T, seq<T>)>, root: T, x: T)
    requires NoDup(RootList(acc))
    ensures multiset(Concat(Members(AddTo(acc, root, x)))) == multiset(Concat(Members(acc))) + multiset{x}
    decreases |acc|
  {
    var r := AddTo(acc, root, x);
    if |acc| == 0 {
      assert Members(r) == [[x]];
      ConcatCons([x], []);
    } else {
      var rest := Members(acc[1..]);
      assert Members(acc) == [acc[0].1] + rest;
      ConcatCons(acc[0].1, rest);
      if acc[0].0 == root {
        assert Members(r) == [acc[0].1 + [x]] + rest;
        ConcatCons(acc[0].1 + [x], rest);
      } else {
        RootListTail(acc);
        AddToMembers(acc[1..], root, x);
        assert Members(r) == [acc[0].1] + Members(AddTo(acc[1..], root, x));
        ConcatCons(acc[0].1, Members(AddTo(acc[1..], root, x)));
      }
    }
  }

  /** The roots of the keys of `done`. */
  ghost function RootsIn<T(!new)>(p: map<T, T>, done: seq<T>): set<T>
    requires Acyclic(p)
  {
    set z | z in done && z in p :: Root(p, z)
  }

  /** Every member of `ys` is a key with root `root`. */
  ghost predicate EntryRooted<T(!new)>(p: map<T, T>, root: T, ys: seq<T>)
    requires Acyclic(p)
  {
    forall y :: y in ys ==> y in p && Root(p, y) == root
  }

  /** Every member of an entry is a key whose root is the entry's root. */
  ghost predicate MembersRooted<T(!new)>(p: map<T, T>, acc: seq<(T, seq<T>)>)
    requires Acyclic(p)
  {
    forall i :: 0 <= i < |acc| ==> EntryRooted(p, acc[i].0, acc[i].1)
  }

  predicate NonEmpty<T>(acc: seq<(T, seq<T>)>)
  {
    forall i :: 0 <= i < |acc| ==> |acc[i].1| > 0
  }

  /** The state of `groups` after the keys `done`: each entry holds members of its root's class, every root once. */
  ghost predicate GroupsSoFar<T(!new)>(p: map<T, T>, done: seq<T>, acc: seq<(T, seq<T>)>)
    requires Acyclic(p)
  {
    && NoDup(RootList(acc))
    && NonEmpty(acc)
    && MembersRooted(p, acc)
    && multiset(Concat(Members(acc))) == multiset(done)
    && (set y | y in RootList(acc)) == RootsIn(p, done)
  }

  /** The roots after `AddTo`: unchanged when `root` had an entry, else `root` appended. */
  lemma RootListAddTo<T(!new)>(acc: seq<(T, seq<T>)>, root: T, x: T)
    requires NoDup(RootList(acc))
    ensures RootList(AddTo(acc, root, x)) == if root in RootList(acc) then RootList(acc) else RootList(acc) + [root]
  {
    var r := AddTo(acc, root, x);
    var before, after := RootList(acc), RootList(r);
    forall i | 0 <= i < |before| ensures after[i] == before[i] {
      assert r[i].0 == acc[i].0;
    }
    if root in before {
      assert |after| == |before|;
      assert after == before;
    } else {
      var want := before + [root];
      assert |after| == |want|;
      forall i | 0 <= i < |want| ensures after[i] == want[i] {
        if i == |before| {
          assert r[i] == (root, [x]);
        }
      }
      assert after == want;
    }
  }

  lemma AddToRoots<T(!new)>(acc: seq<(T, seq<T>)>, root: T, x: T)
    requires NoDup(RootList(acc))
    ensures NoDup(RootList(AddTo(acc, root, x)))
    ensures (set y | y in RootList(AddTo(acc, root, x))) == (set y | y in RootList(acc)) + {root}
  {
    var before := RootList(acc);
    RootListAddTo(acc, root, x);
    if root !in before {
      NoDupSnoc(before, root);
      SetOfSnoc(before, root);
    }
  }

  lemma SetOfSnoc<T>(xs: seq<T>, v: T)
    ensures (set y | y in xs + [v]) == (set y | y in xs) + {v}
  {
  }

  lemma NoDupSnoc<T(!new)>(xs: seq<T>, v: T)
    requires NoDup(xs) && v !in xs
    ensures NoDup(xs + [v])
  {
    var ys := xs + [v];
    forall i, j | 0 <= i < j < |ys| ensures ys[i] != ys[j] {
      assert ys[i] == xs[i];
      if j < |xs| {
        assert ys[j] == xs[j];
      }
    }
  }

  lemma AddToRooted<T(!new)>(p: map<T, T>, acc: seq<(T, seq<T>)>, x: T)
    requires Acyclic(p) && x in p && NoDup(RootList(acc)) && MembersRooted(p, acc) && NonEmpty(acc)
    ensures MembersRooted(p, AddTo(acc, Root(p, x), x)) && NonEmpty(AddTo(acc, Root(p, x), x))
  {
    var root := Root(p, x);
    var r := AddTo(acc, root, x);
    forall i | 0 <= i < |r|
      ensures EntryRooted(p, r[i].0, r[i].1) && |r[i].1| > 0
    {
      if i < |acc| {
        assert EntryRooted(p, acc[i].0, acc[i].1) && |acc[i].1| > 0;
        if acc[i].0 == root {
          EntryRootedSnoc(p, root, acc[i].1, x);
        }
      } else {
        assert i == |acc|;
        EntryRootedSnoc(p, root, [], x);
        assert [] + [x] == [x];
      }
    }
  }

  lemma EntryRootedSnoc<T(!new)>(p: map<T, T>, root: T, ys: seq<T>, x: T)
    requires Acyclic(p) && x in p && Root(p, x) == root && EntryRooted(p, root, ys)
    ensures EntryRooted(p, root, ys + [x])
  {
    forall y | y in ys + [x] ensures y in p && Root(p, y) == root {
      if y != x {
        assert y in ys;
      }
    }
  }

  lemma RootsInSnoc<T(!new)>(p: map<T, T>, done: seq<T>, x: T)
    requires Acyclic(p) && x in p
    ensures RootsIn(p, done + [x]) == RootsIn(p, done) + {Root(p, x)}
  {
    assert forall z :: z in done + [x] <==> z in done || z == x;
  }

  lemma GroupsStep<T(!new)>(p: map<T, T>, done: seq<T>, acc: seq<(T, seq<T>)>, x: T)
    requires Acyclic(p) && x in p
    requires GroupsSoFar(p, done, acc)
    ensures GroupsSoFar(p, done + [x], AddTo(acc, Root(p, x), x))
  {
    AddToMembers(acc, Root(p, x), x);
    AddToRoots(acc, Root(p, x), x);
    AddToRooted(p, acc, x);
    RootsInSnoc(p, done, x);
  }

  /** A list without repeats has as many entries as its set of elements. */
  lemma {:induction false} NoDupCard<T(!new)>(xs: seq<T>)
    requires NoDup(xs)
    ensures |set x | x in xs| == |xs|
  {
    if |xs| > 0 {
      var rest := xs[1..];
      assert NoDup(rest);
      NoDupCard(rest);
      assert (set x | x in xs) == (set x | x in rest) + {xs[0]};
      assert xs[0] !in rest;
    }
  }

  /** `find` on a map with the roots of `f` finds the root of `f` and keeps every root. */
  lemma FindKeepsRoots<T(!new)>(f: Forest<T>, p: map<T, T>, k: nat)
    requires Valid(f) && k < |f.keys| && Acyclic(p) && SameRoots(f.parent, p)
    ensures f.keys[k] in p
    ensures FindIn(p, f.keys[k]).0 == Root(f.parent, f.keys[k])
    ensures Acyclic(FindIn(p, f.keys[k]).1) && SameRoots(f.parent, FindIn(p, f.keys[k]).1)
  {
    var x := f.keys[k];
    assert x in (set y | y in f.keys);
    var (root, p') := FindIn(p, x);
    assert Ranked(p', RankOf(p));
    assert SameRoots(p, p');
  }

  /** Every key of `keys` points straight at its root. */
  ghost predicate FlatOn<T(!new)>(p: map<T, T>, keys: seq<T>)
    requires Acyclic(p)
  {
    forall x :: x in keys ==> x in p && p[x] == Root(p, x)
  }

  /**
    A `find` only ever redirects keys to the root it finds, so keys already
    pointing at their roots still do, and the key found joins them.
    */
  lemma FindKeepsFlat<T(!new)>(p: map<T, T>, keys: seq<T>, e: T)
    requires Acyclic(p) && e in p && FlatOn(p, keys)
    ensures Acyclic(FindIn(p, e).1) && FlatOn(FindIn(p, e).1, keys + [e])
  {
    var (root, q) := FindIn(p, e);
    assert Ranked(q, RankOf(p));
    forall x | x in keys + [e] ensures x in q && q[x] == Root(q, x) {
      if x != e && q[x] == p[x] {
        assert Root(q, x) == Root(p, x);
      } else {
        assert q[x] == root && q[root] == root;
      }
    }
  }

  /** Key `x` comes before key `y` in the order of `keys`. */
  ghost predicate Before<T(!new)>(keys: seq<T>, x: T, y: T)
  {
    exists k :: 0 <= k < |keys| && keys[k] == y && x in keys[..k]
  }

  /** `ys` holds only keys among the first `k`, in key order. */
  ghost predicate EntryInOrder<T(!new)>(keys: seq<T>, k: nat, ys: seq<T>)
    requires k <= |keys|
  {
    && (forall y :: y in ys ==> y in keys[..k])
    && (forall a, b :: 0 <= a < b < |ys| ==> Before(keys, ys[a], ys[b]))
  }

  /** Every entry lists only keys among the first `k`, in key order. */
  ghost predicate InKeyOrder<T(!new)>(keys: seq<T>, k: nat, acc: seq<(T, seq<T>)>)
    requires k <= |keys|
  {
    forall i :: 0 <= i < |acc| ==> EntryInOrder(keys, k, acc[i].1)
  }

  /** An entry left alone stays in order once one more key is done. */
  lemma EntryMore<T(!new)>(keys: seq<T>, k: nat, ys: seq<T>)
    requires k < |keys| && EntryInOrder(keys, k, ys)
    ensures EntryInOrder(keys, k + 1, ys)
  {
    assert keys[..k + 1] == keys[..k] + [keys[k]];
  }

  /** Key `k` comes after every key already listed, so appending it keeps the order. */
  lemma EntrySnoc<T(!new)>(keys: seq<T>, k: nat, ys: seq<T>)
    requires k < |keys| && EntryInOrder(keys, k, ys)
    ensures EntryInOrder(keys, k + 1, ys + [keys[k]])
  {
    var zs := ys + [keys[k]];
    assert keys[..k + 1] == keys[..k] + [keys[k]];
    forall a, b | 0 <= a < b < |zs| ensures Before(keys, zs[a], zs[b]) {
      assert zs[a] == ys[a] && ys[a] in ys;
      if b < |ys| {
        assert zs[b] == ys[b];
      }
    }
  }

  /** Appending the next key to its entry keeps every entry in key order. */
  lemma AddToInOrder<T(!new)>(keys: seq<T>, k: nat, acc: seq<(T, seq<T>)>, root: T)
    requires k < |keys| && NoDup(RootList(acc)) && InKeyOrder(keys, k, acc)
    ensures InKeyOrder(keys, k + 1, AddTo(acc, root, keys[k]))
  {
    var r := AddTo(acc, root, keys[k]);
    forall i | 0 <= i < |r| ensures EntryInOrder(keys, k + 1, r[i].1) {
      if i == |acc| {
        EntrySnoc(keys, k, []);
        assert [] + [keys[k]] == [keys[k]];
      } else if acc[i].0 == root {
        EntrySnoc(keys, k, acc[i].1);
      } else {
        EntryMore(keys, k, acc[i].1);
      }
    }
  }

  /**
    The `groups` loop after `k` keys: the compressed map `p` keeps every
    root, the entries file the first `k` keys by root in key order, and those
    keys point straight at their roots.
    */
  ghost predicate GroupsLoop<T(!new)>(f: Forest<T>, k: nat, p: map<T, T>, acc: seq<(T, seq<T>)>)
    requires Valid(f)
  {
    && k <= |f.keys|
    && Acyclic(p) && SameRoots(f.parent, p)
    && GroupsSoFar(f.parent, f.keys[..k], acc)
    && FlatOn(p, f.keys[..k])
    && InKeyOrder(f.keys, k, acc)
  }

  lemma GroupsLoopStart<T(!new)>(f: Forest<T>)
    requires Valid(f)
    ensures GroupsLoop(f, 0, f.parent, [])
  {
    assert GroupsSoFar(f.parent, f.keys[..0], []);
  }

  /** After the last key the loop facts cover every key. */
  lemma GroupsLoopEnd<T(!new)>(f: Forest<T>, k: nat, p: map<T, T>, acc: seq<(T, seq<T>)>)
    requires Valid(f) && GroupsLoop(f, k, p, acc) && k >= |f.keys|
    ensures GroupsSoFar(f.parent, f.keys, acc)
    ensures Acyclic(p) && SameRoots(f.parent, p) && FlatOn(p, f.keys)
    ensures forall i :: 0 <= i < |acc| ==> EntryInOrder(f.keys, |f.keys|, acc[i].1)
  {
    assert f.keys[..k] == f.keys;
  }

  /** One pass of the `groups` loop, for the roots and the entries: `find` the next key and file it under its root. */
  lemma GroupsFileStep<T(!new)>(f: Forest<T>, k: nat, p: map<T, T>, acc: seq<(T, seq<T>)>)
    requires Valid(f) && k < |f.keys| && Acyclic(p) && SameRoots(f.parent, p) && GroupsSoFar(f.parent, f.keys[..k], acc)
    ensures f.keys[k] in p
    ensures Acyclic(FindIn(p, f.keys[k]).1) && SameRoots(f.parent, FindIn(p, f.keys[k]).1)
    ensures GroupsSoFar(f.parent, f.keys[..k + 1], AddTo(acc, FindIn(p, f.keys[k]).0, f.keys[k]))
  {
    FindKeepsRoots(f, p, k);
    GroupsKeyStep(f, k, acc);
  }

  /** One pass of the `groups` loop: `find` the next key and file it under its root. */
  lemma GroupsLoopStep<T(!new)>(f: Forest<T>, k: nat, p: map<T, T>, acc: seq<(T, seq<T>)>)
    requires Valid(f) && GroupsLoop(f, k, p, acc) && k < |f.keys|
    ensures f.keys[k] in p
    ensures GroupsLoop(f, k + 1, FindIn(p, f.keys[k]).1, AddTo(acc, FindIn(p, f.keys[k]).0, f.keys[k]))
  {
    GroupsFileStep(f, k, p, acc);
    FlatStep(p, f.keys, k);
    AddToInOrder(f.keys, k, acc, FindIn(p, f.keys[k]).0);
  }

  /** The `find` of key `k` leaves the first `k + 1` keys pointing at their roots. */
  lemma FlatStep<T(!new)>(p: map<T, T>, keys: seq<T>, k: nat)
    requires Acyclic(p) && k < |keys| && keys[k] in p && FlatOn(p, keys[..k])
    ensures Acyclic(FindIn(p, keys[k]).1) && FlatOn(FindIn(p, keys[k]).1, keys[..k + 1])
  {
    FindKeepsFlat(p, keys[..k], keys[k]);
    assert keys[..k + 1] == keys[..k] + [keys[k]];
  }

  /** Flat on every key of `f`, so flat everywhere. */
  lemma FlatAll<T(!new)>(f: Forest<T>, p: map<T, T>)
    requires Valid(f) && Acyclic(p) && p.Keys == f.parent.Keys && FlatOn(p, f.keys)
    ensures Valid(Forest(f.keys, p))
    ensures forall x :: x in p ==> p[x] == Root(p, x)
  {
    forall x | x in p ensures p[x] == Root(p, x) {
      assert x in (set y | y in f.keys);
    }
  }

  /** One pass of the `groups` loop: the next key joins its root's entry. */
  lemma GroupsKeyStep<T(!new)>(f: Forest<T>, k: nat, acc: seq<(T, seq<T>)>)
    requires Valid(f) && k < |f.keys|
    requires GroupsSoFar(f.parent, f.keys[..k], acc)
    ensures f.keys[k] in f.parent
    ensures GroupsSoFar(f.parent, f.keys[..k + 1], AddTo(acc, Root(f.parent, f.keys[k]), f.keys[k]))
  {
    var x := f.keys[k];
    assert x in (set y | y in f.keys);
    assert f.keys[..k + 1] == f.keys[..k] + [x];
    GroupsStep(f.parent, f.keys[..k], acc, x);
  }

  /** After every key: the member lists partition the keys by root, one list per class. */
  lemma GroupsDone<T(!new)>(f: Forest<T>, acc: seq<(T, seq<T>)>)
    requires Valid(f) && GroupsSoFar(f.parent, f.keys, acc)
    ensures forall i :: 0 <= i < |Members(acc)| ==> |Members(acc)[i]| > 0
    ensures multiset(Concat(Members(acc))) == multiset(f.keys)
    ensures forall i, x :: 0 <= i < |Members(acc)| && x in Members(acc)[i] ==> x in f.parent
    ensures ByRoot(f.parent, Members(acc))
    ensures |Members(acc)| == |RootSet(f.parent)|
  {
    var gs := Members(acc);
    assert RootsIn(f.parent, f.keys) == RootSet(f.parent);
    NoDupCard(RootList(acc));
    forall i, x | 0 <= i < |acc| && x in gs[i]
      ensures x in f.parent && Root(f.parent, x) == acc[i].0
    {
      assert EntryRooted(f.parent, acc[i].0, acc[i].1);
    }
    forall i, j | 0 <= i < |acc| && 0 <= j < |acc| && acc[i].0 == acc[j].0
      ensures i == j
    {
      assert RootList(acc)[i] == RootList(acc)[j];
    }
  }

  /** Two keys share a list of `gs` exactly when they share a root. */
  ghost predicate ByRoot<T(!new)>(p: map<T, T>, gs: seq<seq<T>>)
    requires Acyclic(p)
  {
    forall i, j, x, y :: 0 <= i < |gs| && 0 <= j < |gs| && x in gs[i] && y in gs[j] ==>
      x in p && y in p && (i == j <==> Root(p, x) == Root(p, y))
  }

  /**
    `groups`: walk the keys in dictionary order, find each key's root
    (compressing as it goes) and append the key to its root's list; return
    the lists. They partition the keys: every key is in exactly one list,
    two keys share a list exactly when they share a root, there is one list
    per class, and each list holds its keys in dictionary order. The forest comes back with the same classes and every
    key pointing straight at its root.
    */
  method Groups<T(==,!new)>(f: Forest<T>) returns (gs: seq<seq<T>>, f': Forest<T>)
    requires Valid(f)
    ensures forall i :: 0 <= i < |gs| ==> |gs[i]| > 0
    ensures multiset(Concat(gs)) == multiset(f.keys)
    ensures forall i, x :: 0 <= i < |gs| && x in gs[i] ==> x in f.parent
    ensures ByRoot(f.parent, gs)
    ensures |gs| == |RootSet(f.parent)|
    ensures forall i, a, b :: 0 <= i < |gs| && 0 <= a < b < |gs[i]| ==> Before(f.keys, gs[i][a], gs[i][b])
    ensures Valid(f') && f'.keys == f.keys && SameRoots(f.parent, f'.parent)
    ensures forall x :: x in f'.parent ==> f'.parent[x] == Root(f'.parent, x)
  {
    var p := f.parent;
    var acc: seq<(T, seq<T>)> := [];
    var k := 0;
    GroupsLoopStart(f);
    while k < |f.keys|
      invariant GroupsLoop(f, k, p, acc)
    {
      GroupsLoopStep(f, k, p, acc);
      var x := f.keys[k];
      var (root, p') := FindIn(p, x);
      acc := AddTo(acc, root, x);
      p := p';
      k := k + 1;
    }
    GroupsLoopEnd(f, k, p, acc);
    GroupsDone(f, acc);
    FlatAll(f, p);
    gs := Members(acc);
    f' := Forest(f.keys, p);
  }
}
