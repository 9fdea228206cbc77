/**
 The rooted disjoint set: a mapping from each key to its parent key that is also
 a union-find structure. Reading a key finds its root (adding the key as its own
 root when it is new) and compresses the walked path; writing `key` to
 `dependsOn` merges the group of `key` under the root of `dependsOn`.

 The mapping is held in `parent`; `order` is the mapping's key iteration order,
 which is insertion order; the ghost `rank` witnesses that the pointer graph has
 no cycle other than the self-loops at roots.
 */
module DisjointSet {
  import opened Groups
  import opened Forest

  /** The iteration order after `k` is looked up with insert-if-absent. */
  function Appended<K(==)>(order: seq<K>, k: K): seq<K>
  {
    if k in order then order else order + [k]
  }

  /** The iteration order after replaying `deps` through union, pair by pair, starting from `order`. */
  function ReplayedOrder<K(==)>(order: seq<K>, deps: seq<(K, K)>): seq<K>
  {
    if deps == [] then order
    else
      var (k, v) := deps[|deps| - 1];
      Appended(Appended(ReplayedOrder(order, deps[..|deps| - 1]), v), k)
  }

  /** The set of the elements of `s`. */
  function Elements<K>(s: seq<K>): set<K>
  {
    set x | x in s
  }

  /** Looking a key up adds it, and nothing else, to the listed keys. */
  lemma ElementsAppended<K>(s: seq<K>, k: K)
    ensures Elements(Appended(s, k)) == Elements(s) + {k}
    ensures |Appended(s, k)| == if k in s then |s| else |s| + 1
  {
  }

  /** A sequence has at most as many distinct elements as it has positions. */
  lemma {:induction false} ElementsBound<K>(s: seq<K>)
    ensures |Elements(s)| <= |s|
  {
    if s != [] {
      var t := s[..|s| - 1];
      ElementsBound(t);
      assert s == t + [s[|s| - 1]];
      assert Elements(s) == Elements(t) + {s[|s| - 1]};
    }
  }

  /** A sequence with a repeated element has strictly fewer distinct elements than positions. */
  lemma {:induction false} RepeatShrinks<K>(s: seq<K>, i: nat, j: nat)
    requires i < j < |s| && s[i] == s[j]
    ensures |Elements(s)| < |s|
  {
    var t := s[..|s| - 1];
    assert s == t + [s[|s| - 1]];
    assert Elements(s) == Elements(t) + {s[|s| - 1]};
    if j == |s| - 1 {
      assert s[j] in Elements(t) by { assert t[i] == s[i]; }
      ElementsBound(t);
    } else {
      RepeatShrinks(t, i, j);
    }
  }

  /** Both keys of every pair of `deps` are present and in the same group. */
  ghost predicate Joined<K>(p: map<K, K>, rank: map<K, int>, deps: seq<(K, K)>)
    requires Ranked(p, rank)
  {
    forall i :: 0 <= i < |deps| ==>
      deps[i].0 in p && deps[i].1 in p && Root(p, rank, deps[i].0) == Root(p, rank, deps[i].1)
  }

  /** A forest standing for the replay of `deps` has both keys of every pair in one group. */
  lemma JoinedByReplay<K>(p: map<K, K>, rank: map<K, int>, g: map<K, K>, deps: seq<(K, K)>)
    requires Ranked(p, rank) && GroupedAs(p, rank, Replay(g, deps))
    ensures Joined(p, rank, deps)
  {
    ReplayJoins(g, deps);
    forall i | 0 <= i < |deps|
      ensures deps[i].0 in p && deps[i].1 in p && Root(p, rank, deps[i].0) == Root(p, rank, deps[i].1)
    {
      assert Root(p, rank, deps[i].0) == Replay(g, deps)[deps[i].0];
      assert Root(p, rank, deps[i].1) == Replay(g, deps)[deps[i].1];
    }
  }

  /** Replaying one more pair looks up its value, then its key. */
  lemma ReplayedOrderStep<K>(order: seq<K>, deps: seq<(K, K)>, n: nat)
    requires n < |deps|
    ensures ReplayedOrder(order, deps[..n + 1]) == Appended(Appended(ReplayedOrder(order, deps[..n]), deps[n].1), deps[n].0)
  {
    assert deps[..n + 1][..n] == deps[..n];
  }

  /** The root of each key of `order`, position by position. */
  ghost function RootsAlong<K>(p: map<K, K>, rank: map<K, int>, order: seq<K>): (rs: seq<K>)
    requires Ranked(p, rank) && forall i :: 0 <= i < |order| ==> order[i] in p
    ensures |rs| == |order|
  {
    if order == [] then [] else RootsAlong(p, rank, order[..|order| - 1]) + [Root(p, rank, order[|order| - 1])]
  }

  /** The `i`-th entry of `RootsAlong` is the root of the `i`-th key. */
  lemma {:induction false} RootsAlongAt<K>(p: map<K, K>, rank: map<K, int>, order: seq<K>, i: nat)
    requires Ranked(p, rank) && forall i :: 0 <= i < |order| ==> order[i] in p
    requires i < |order|
    ensures RootsAlong(p, rank, order)[i] == Root(p, rank, order[i])
    decreases |order|
  {
    if i < |order| - 1 {
      RootsAlongAt(p, rank, order[..|order| - 1], i);
    }
  }

  /**
   Positional equality of two containers: pairing keys by iteration position, up
   to the shorter order, each pair of keys has equal roots.
   */
  ghost predicate PositionalEqual<K>(p: map<K, K>, rank: map<K, int>, order: seq<K>,
                                     q: map<K, K>, qrank: map<K, int>, qorder: seq<K>)
    requires Ranked(p, rank) && Ranked(q, qrank)
    requires forall i :: 0 <= i < |order| ==> order[i] in p
    requires forall i :: 0 <= i < |qorder| ==> qorder[i] in q
  {
    forall m :: 0 <= m < |order| && m < |qorder| ==> RootsAlong(p, rank, order)[m] == RootsAlong(q, qrank, qorder)[m]
  }

  /** Pairing stops at the shorter order, so an empty container is positionally equal to every container. */
  lemma EmptyEqualsAll<K>(p: map<K, K>, rank: map<K, int>, order: seq<K>,
                          q: map<K, K>, qrank: map<K, int>, qorder: seq<K>)
    requires Ranked(p, rank) && Ranked(q, qrank)
    requires forall i :: 0 <= i < |order| ==> order[i] in p
    requires forall i :: 0 <= i < |qorder| ==> qorder[i] in q
    requires order == [] || qorder == []
    ensures PositionalEqual(p, rank, order, q, qrank, qorder)
  {
  }

  class RootedDisjointSet<K(==)> {
    var parent: map<K, K>
    var order: seq<K>
    ghost var rank: map<K, int>

    /** The forest is closed and acyclic, and `order` lists every key exactly once. */
    ghost predicate Valid()
      reads this
    {
      && Ranked(parent, rank)
      && (forall i :: 0 <= i < |order| ==> order[i] in parent)
      && (forall k {:trigger k in order} :: k in parent ==> k in order)
      && |order| == |parent|
    }

    /** In a valid container no key is listed twice in `order`. */
    lemma OrderDistinct()
      requires Valid()
      ensures forall i, j :: 0 <= i < j < |order| ==> order[i] != order[j]
    {
      assert parent.Keys == Elements(order);
      forall i, j | 0 <= i < j < |order|
        ensures order[i] != order[j]
      {
        if order[i] == order[j] {
          RepeatShrinks(order, i, j);
        }
      }
    }

    /**
     Builds the container from a dependency map given as its items in iteration
     order (none for the empty container), applying union to each pair in turn.
     */
    constructor (deps: seq<(K, K)>)
      ensures Valid()
      ensures order == ReplayedOrder([], deps)
      ensures GroupedAs(parent, rank, Replay(map[], deps))
      ensures Joined(parent, rank, deps)
    {
      parent, order, rank := map[], [], map[];
      new;
      SetAll(deps, map[]);
    }

    /**
     Applies union to each pair of `deps` in turn: each key is made to depend on
     its value. `g` is the grouping the container stands for beforehand.
     */
    method SetAll(deps: seq<(K, K)>, ghost g: map<K, K>)
      requires Valid() && GroupedAs(parent, rank, g)
      modifies this
      ensures Valid()
      ensures order == ReplayedOrder(old(order), deps)
      ensures GroupedAs(parent, rank, Replay(g, deps))
      ensures Joined(parent, rank, deps)
    {
      var n := 0;
      while n < |deps|
        invariant n <= |deps|
        invariant Valid()
        invariant order == ReplayedOrder(old(order), deps[..n])
        invariant GroupedAs(parent, rank, Replay(g, deps[..n]))
      {
        ghost var p0, r0 := parent, rank;
        ReplayedOrderStep(old(order), deps, n);
        ReplayStep(g, deps, n);
        SetItem(deps[n].0, deps[n].1);
        MergedIsUnion(p0, r0, parent, rank, Replay(g, deps[..n]), deps[n].0, deps[n].1);
        n := n + 1;
      }
      assert deps[..n] == deps;
      JoinedByReplay(parent, rank, g, deps);
    }

    /** Walks parent pointers from `start`, changing nothing, until it reaches a root. */
    method BrutalFindRoot(start: K) returns (r: K)
      requires Valid() && start in parent
      ensures r in parent && parent[r] == r
      ensures r == Root(parent, rank, start)
    {
      r := start;
      while r != parent[r]
        invariant r in parent && Root(parent, rank, r) == Root(parent, rank, start)
        decreases Above(parent, rank, r)
      {
        AboveShrinks(parent, rank, r);
        r := parent[r];
      }
    }

    /**
     Find: adds `key` as its own root when it is absent, returns its root and
     points every node on the walked path directly at that root.
     */
    method GetItem(key: K) returns (r: K)
      requires Valid()
      modifies this
      ensures Valid()
      ensures parent.Keys == old(parent).Keys + {key}
      ensures order == Appended(old(order), key)
      ensures r == RootOf(old(parent), old(rank), key) && parent[r] == r && parent[key] == r
      ensures key !in old(parent) ==> r == key && parent == old(parent)[key := key]
      ensures key in old(parent) ==> forall j {:trigger j in Path(old(parent), old(rank), key)} :: j in old(parent) ==>
        parent[j] == if j in Path(old(parent), old(rank), key) then r else old(parent)[j]
      ensures KeepsRoots(old(parent), old(rank), parent, rank)
    {
      if key !in parent {
        SetDefault(key);
      }
      ghost var p0, rank0 := parent, rank;
      r := BrutalFindRoot(parent[key]);
      assert r == Root(parent, rank, key);
      Flatten(key, r);
      forall j {:trigger j in Path(p0, rank0, key)} | j in p0
        ensures parent[j] == if j in Path(p0, rank0, key) then r else p0[j]
      {
        CompressShape(p0, rank0, key, j);
      }
      CompressShape(p0, rank0, key, key);
      if key !in old(parent) {
        CompressAtRoot(p0, rank0, key);
      }
      KeepsRootsTrans(old(parent), old(rank), p0, rank0, parent, rank);
    }

    /** Insert-if-absent: adds the new `key` as its own root, appended to the iteration order. */
    method SetDefault(key: K)
      requires Valid() && key !in parent
      modifies this
      ensures Valid()
      ensures parent == old(parent)[key := key] && order == old(order) + [key] && rank == old(rank)[key := 0]
      ensures KeepsRoots(old(parent), old(rank), parent, rank)
    {
      VivifyKeeps(parent, rank, key);
      ElementsAppended(order, key);
      parent, order, rank := parent[key := key], order + [key], rank[key := 0];
    }

    /** Points every node on the path from `key` directly at `root`, the root of `key`. */
    method Flatten(key: K, root: K)
      requires Valid() && key in parent && root == Root(parent, rank, key)
      modifies this
      ensures Valid()
      ensures parent == Compress(old(parent), old(rank), key) && order == old(order) && rank == old(rank)
      ensures SameRoots(old(parent), old(rank), parent, rank)
    {
      ghost var path := Path(parent, rank, key);
      PathSteps(parent, rank, key);
      ghost var i := 0;
      var cur := key;
      while cur != parent[cur]
        invariant order == old(order) && rank == old(rank) && parent.Keys == old(parent).Keys
        invariant i < |path| && cur == path[i]
        invariant parent == Redirect(old(parent), path[..i], root)
        decreases |path| - i
      {
        NotYetRedirected(old(parent), rank, key, i, root);
        assert path[..i + 1] == path[..i] + [cur];
        var next := parent[cur];
        parent := parent[cur := root];
        cur := next;
        i := i + 1;
      }
      NotYetRedirected(old(parent), rank, key, i, root);
      RedirectedToCompress(old(parent), rank, key, i);
      CompressSameRoots(old(parent), rank, key);
    }

    /** The named form of `GetItem`: the same operation. */
    method FindRoot(key: K) returns (r: K)
      requires Valid()
      modifies this
      ensures Valid()
      ensures parent.Keys == old(parent).Keys + {key}
      ensures order == Appended(old(order), key)
      ensures r == RootOf(old(parent), old(rank), key) && parent[r] == r && parent[key] == r
      ensures key !in old(parent) ==> r == key && parent == old(parent)[key := key]
      ensures key in old(parent) ==> forall j {:trigger j in Path(old(parent), old(rank), key)} :: j in old(parent) ==>
        parent[j] == if j in Path(old(parent), old(rank), key) then r else old(parent)[j]
      ensures KeepsRoots(old(parent), old(rank), parent, rank)
    {
      r := GetItem(key);
    }

    /**
     Union: finds the root of `dependsOn`, then the root of `key`; when they differ
     the root of `key` is pointed at the root of `dependsOn`, otherwise nothing
     beyond the two finds happens.
     */
    method SetItem(key: K, dependsOn: K)
      requires Valid()
      modifies this
      ensures Valid()
      ensures order == Appended(Appended(old(order), dependsOn), key)
      ensures Merged(old(parent), old(rank), parent, rank, key, dependsOn)
      ensures RootOf(old(parent), old(rank), key) == RootOf(old(parent), old(rank), dependsOn) ==>
        KeepsRoots(old(parent), old(rank), parent, rank)
      ensures RootOf(old(parent), old(rank), key) != RootOf(old(parent), old(rank), dependsOn) ==>
        parent[RootOf(old(parent), old(rank), key)] == RootOf(old(parent), old(rank), dependsOn)
      ensures Root(parent, rank, key) == Root(parent, rank, dependsOn) == RootOf(old(parent), old(rank), dependsOn)
    {
      ghost var p0, rank0 := parent, rank;
      var pp, pc := FindBoth(dependsOn, key);
      if pp == pc {
        MergedWhenJoined(p0, rank0, parent, rank, key, dependsOn);
      } else {
        ghost var p2, rank2 := parent, rank;
        Link(pc, pp);
        MergedThroughRoots(p0, rank0, p2, rank2, parent, rank, key, dependsOn);
      }
      MergedJoins(p0, rank0, parent, rank, key, dependsOn);
    }

    /** Finds `a`, then `b`: both are added if absent, both roots are returned, and no key changes group. */
    method FindBoth(a: K, b: K) returns (ra: K, rb: K)
      requires Valid()
      modifies this
      ensures Valid()
      ensures parent.Keys == old(parent).Keys + {a, b}
      ensures order == Appended(Appended(old(order), a), b)
      ensures ra == RootOf(old(parent), old(rank), a) && rb == RootOf(old(parent), old(rank), b)
      ensures parent[ra] == ra && parent[rb] == rb
      ensures KeepsRoots(old(parent), old(rank), parent, rank)
    {
      ra := GetItem(a);
      ghost var p1, rank1 := parent, rank;
      rb := GetItem(b);
      KeepsRootsTrans(old(parent), old(rank), p1, rank1, parent, rank);
      assert Root(parent, rank, ra) == Root(p1, rank1, ra) == ra;
      RootFixed(parent, rank, ra);
    }

    /** Points root `c` at the different root `d`, merging the group of `c` into the group of `d`. */
    method Link(c: K, d: K)
      requires Valid() && c in parent && d in parent && parent[c] == c && parent[d] == d && c != d
      modifies this
      ensures Valid()
      ensures parent == old(parent)[c := d] && order == old(order) && rank == Raise(old(rank), c, d)
      ensures Merged(old(parent), old(rank), parent, rank, c, d)
    {
      LinkMerges(parent, rank, c, d);
      parent, rank := parent[c := d], Raise(rank, c, d);
    }

    /** The named form of `SetItem`: the same operation. */
    method SetDependent(key: K, dependsOn: K)
      requires Valid()
      modifies this
      ensures Valid()
      ensures order == Appended(Appended(old(order), dependsOn), key)
      ensures Merged(old(parent), old(rank), parent, rank, key, dependsOn)
      ensures RootOf(old(parent), old(rank), key) == RootOf(old(parent), old(rank), dependsOn) ==>
        KeepsRoots(old(parent), old(rank), parent, rank)
      ensures RootOf(old(parent), old(rank), key) != RootOf(old(parent), old(rank), dependsOn) ==>
        parent[RootOf(old(parent), old(rank), key)] == RootOf(old(parent), old(rank), dependsOn)
      ensures Root(parent, rank, key) == Root(parent, rank, dependsOn) == RootOf(old(parent), old(rank), dependsOn)
    {
      SetItem(key, dependsOn);
    }

    /** Whether the two keys have the same root; both are looked up, so both are added if absent. */
    method HaveSameRoot(key1: K, key2: K) returns (same: bool)
      requires Valid()
      modifies this
      ensures Valid()
      ensures parent.Keys == old(parent).Keys + {key1, key2}
      ensures order == Appended(Appended(old(order), key1), key2)
      ensures same <==> RootOf(old(parent), old(rank), key1) == RootOf(old(parent), old(rank), key2)
      ensures KeepsRoots(old(parent), old(rank), parent, rank)
    {
      var a, b := FindBoth(key1, key2);
      same := a == b;
    }

    /**
     Positional equality: pairs the keys of the two containers by iteration
     position, up to the shorter of the two, and compares their roots, stopping
     at the first mismatch. Lookups only compress, so no key, order or root changes.
     */
    method Equals(other: RootedDisjointSet<K>) returns (eq: bool)
      requires Valid() && other.Valid()
      modifies this, other
      ensures Valid() && other.Valid()
      ensures order == old(order) && other.order == old(other.order)
      ensures SameRoots(old(parent), old(rank), parent, rank)
      ensures SameRoots(old(other.parent), old(other.rank), other.parent, other.rank)
      ensures eq == PositionalEqual(old(parent), old(rank), old(order), old(other.parent), old(other.rank), old(other.order))
    {
      var n := if |order| < |other.order| then |order| else |other.order|;
      ghost var p0, r0, q0, qr0 := parent, rank, other.parent, other.rank;
      ghost var mine, theirs := RootsAlong(p0, r0, order), RootsAlong(q0, qr0, other.order);
      var i := 0;
      while i < n
        invariant i <= n
        invariant Valid() && other.Valid() && order == old(order) && other.order == old(other.order)
        invariant SameRoots(p0, r0, parent, rank) && SameRoots(q0, qr0, other.parent, other.rank)
        invariant forall m :: 0 <= m < i ==> mine[m] == theirs[m]
      {
        ghost var p1, r1, q1, qr1 := parent, rank, other.parent, other.rank;
        var same := RootsMatch(other, order[i], other.order[i]);
        SameRootsTrans(p0, r0, p1, r1, parent, rank);
        SameRootsTrans(q0, qr0, q1, qr1, other.parent, other.rank);
        RootsAlongAt(p0, r0, order, i);
        RootsAlongAt(q0, qr0, other.order, i);
        if !same {
          return false;
        }
        i := i + 1;
      }
      return true;
    }

    /** One step of positional equality: looks up `key1` here, then `key2` in `other`, and compares the roots. */
    method RootsMatch(other: RootedDisjointSet<K>, key1: K, key2: K) returns (same: bool)
      requires Valid() && other.Valid() && key1 in parent && key2 in other.parent
      modifies this, other
      ensures Valid() && other.Valid()
      ensures order == old(order) && other.order == old(other.order)
      ensures SameRoots(old(parent), old(rank), parent, rank)
      ensures SameRoots(old(other.parent), old(other.rank), other.parent, other.rank)
      ensures same == (Root(old(parent), old(rank), key1) == Root(old(other.parent), old(other.rank), key2))
    {
      var a := GetItem(key1);
      ghost var p1, r1 := parent, rank;
      var b := other.GetItem(key2);
      if other == this {
        SameRootsTrans(old(parent), old(rank), p1, r1, parent, rank);
      }
      same := a == b;
    }
  }
}
