/**
 The parent-pointer forest underneath the rooted disjoint set, as pure values.

 A parent map `p` sends every key to its immediate parent; a key is a root when it
 is its own parent. A ghost `rank` witnesses that the pointer graph has no cycle
 other than the self-loops at roots: the rank strictly increases along every
 non-root edge. Everything the container promises about find, path compression
 and union is stated here about maps and proved once.
 */
module Forest {
  import opened Groups

  /** Every parent is itself a key, and ranks strictly increase towards the root. */
  ghost predicate Ranked<K>(p: map<K, K>, rank: map<K, int>)
  {
    && (forall k {:trigger p[k] in p} :: k in p ==> p[k] in p)
    && p.Keys <= rank.Keys
    && (forall k {:trigger p[k]} :: k in p && p[k] != k ==> rank[k] < rank[p[k]])
  }

  /** The keys ranked strictly above `k`: the termination measure of every walk to a root. */
  ghost function Above<K>(p: map<K, K>, rank: map<K, int>, k: K): set<K>
    requires Ranked(p, rank) && k in p
  {
    set j | j in p && rank[j] > rank[k]
  }

  /** One step towards the root leaves strictly fewer keys above. */
  lemma AboveShrinks<K>(p: map<K, K>, rank: map<K, int>, k: K)
    requires Ranked(p, rank) && k in p && p[k] != k
    ensures Above(p, rank, p[k]) < Above(p, rank, k)
  {
    assert p[k] in Above(p, rank, k);
    assert p[k] !in Above(p, rank, p[k]);
  }

  /** The root reached by following parent pointers from `k`; it is a self-loop. */
  ghost function Root<K>(p: map<K, K>, rank: map<K, int>, k: K): (r: K)
    requires Ranked(p, rank) && k in p
    ensures r in p && p[r] == r
    decreases Above(p, rank, k)
  {
    if p[k] == k then k
    else
      AboveShrinks(p, rank, k);
      Root(p, rank, p[k])
  }

  /** The root of `k`, where a key not yet in the map counts as its own singleton group. */
  ghost function RootOf<K>(p: map<K, K>, rank: map<K, int>, k: K): K
    requires Ranked(p, rank)
  {
    if k in p then Root(p, rank, k) else k
  }

  /** The nodes walked from `k` to its root, both included. */
  ghost function Path<K>(p: map<K, K>, rank: map<K, int>, k: K): (path: seq<K>)
    requires Ranked(p, rank) && k in p
    ensures |path| >= 1 && path[0] == k && path[|path| - 1] == Root(p, rank, k)
    ensures forall i :: 0 <= i < |path| ==> path[i] in p
    decreases Above(p, rank, k)
  {
    if p[k] == k then [k]
    else
      AboveShrinks(p, rank, k);
      [k] + Path(p, rank, p[k])
  }

  /**
   Along the path each node is the parent of the one before it, only the last node
   is a self-loop, and ranks strictly increase, so no node repeats.
   */
  lemma {:induction false} PathSteps<K>(p: map<K, K>, rank: map<K, int>, k: K)
    requires Ranked(p, rank) && k in p
    ensures forall i :: 0 <= i < |Path(p, rank, k)| - 1 ==> p[Path(p, rank, k)[i]] == Path(p, rank, k)[i + 1]
    ensures forall i :: 0 <= i < |Path(p, rank, k)| - 1 ==> p[Path(p, rank, k)[i]] != Path(p, rank, k)[i]
    ensures forall i, j :: 0 <= i < j < |Path(p, rank, k)| ==>
      rank[Path(p, rank, k)[i]] < rank[Path(p, rank, k)[j]]
    decreases Above(p, rank, k)
  {
    if p[k] != k {
      AboveShrinks(p, rank, k);
      PathSteps(p, rank, p[k]);
      var path, tail := Path(p, rank, k), Path(p, rank, p[k]);
      assert path == [k] + tail;
      forall i, j | 0 <= i < j < |path|
        ensures rank[path[i]] < rank[path[j]]
      {
        if i == 0 && j > 1 {
          assert rank[tail[0]] < rank[tail[j - 1]];
        }
      }
    }
  }

  /** A key is its own root exactly when it is a self-loop. */
  lemma RootFixed<K>(p: map<K, K>, rank: map<K, int>, k: K)
    requires Ranked(p, rank) && k in p
    ensures Root(p, rank, k) == k <==> p[k] == k
  {
  }

  /** Every node on the path from `k` has the same root as `k`. */
  lemma {:induction false} RootAlongPath<K>(p: map<K, K>, rank: map<K, int>, k: K, i: nat)
    requires Ranked(p, rank) && k in p && i < |Path(p, rank, k)|
    ensures Root(p, rank, Path(p, rank, k)[i]) == Root(p, rank, k)
    decreases Above(p, rank, k)
  {
    if i > 0 {
      AboveShrinks(p, rank, k);
      RootAlongPath(p, rank, p[k], i - 1);
    }
  }

  /** Points each node of `s`, in turn, at `r`. */
  function Redirect<K>(p: map<K, K>, s: seq<K>, r: K): map<K, K>
  {
    if s == [] then p else Redirect(p, s[..|s| - 1], r)[s[|s| - 1] := r]
  }

  /** Redirecting nodes that are keys adds no key, sends the nodes of `s` to `r` and leaves the rest alone. */
  lemma {:induction false} RedirectAt<K>(p: map<K, K>, s: seq<K>, r: K, j: K)
    requires forall i :: 0 <= i < |s| ==> s[i] in p
    ensures Redirect(p, s, r).Keys == p.Keys
    ensures j in p ==> Redirect(p, s, r)[j] == if j in s then r else p[j]
    decreases |s|
  {
    if s != [] {
      var t := s[..|s| - 1];
      RedirectAt(p, t, r, j);
      assert s == t + [s[|s| - 1]];
    }
  }

  /** Before the `i`-th node of the path is redirected it still holds its original parent. */
  lemma NotYetRedirected<K>(p: map<K, K>, rank: map<K, int>, k: K, i: nat, r: K)
    requires Ranked(p, rank) && k in p && i < |Path(p, rank, k)|
    ensures Redirect(p, Path(p, rank, k)[..i], r).Keys == p.Keys
    ensures Redirect(p, Path(p, rank, k)[..i], r)[Path(p, rank, k)[i]] == p[Path(p, rank, k)[i]]
  {
    var path := Path(p, rank, k);
    PathSteps(p, rank, k);
    assert path[i] !in path[..i] by {
      forall m | 0 <= m < i
        ensures path[m] != path[i]
      {
        assert rank[path[m]] < rank[path[i]];
      }
    }
    RedirectAt(p, path[..i], r, path[i]);
  }

  /** Full path compression from `k`: every node on its path is pointed at its root. */
  ghost function Compress<K>(p: map<K, K>, rank: map<K, int>, k: K): map<K, K>
    requires Ranked(p, rank) && k in p
  {
    Redirect(p, Path(p, rank, k), Root(p, rank, k))
  }

  /** Compression adds no key, keeps the map closed, and the same ranks still witness acyclicity. */
  lemma CompressRanked<K>(p: map<K, K>, rank: map<K, int>, k: K)
    requires Ranked(p, rank) && k in p
    ensures Compress(p, rank, k).Keys == p.Keys
    ensures Ranked(Compress(p, rank, k), rank)
  {
    var q := Compress(p, rank, k);
    var path := Path(p, rank, k);
    var r := Root(p, rank, k);
    PathSteps(p, rank, k);
    RedirectAt(p, path, r, k);
    forall j | j in q
      ensures q[j] in q
      ensures q[j] != j ==> rank[j] < rank[q[j]]
    {
      RedirectAt(p, path, r, j);
      if j in path {
        var i :| 0 <= i < |path| && path[i] == j;
        if i < |path| - 1 {
          assert rank[path[i]] < rank[path[|path| - 1]];
        }
      }
    }
  }

  /** Compression points every node on the path from `k` at the root and leaves every other key's parent alone. */
  lemma CompressShape<K>(p: map<K, K>, rank: map<K, int>, k: K, j: K)
    requires Ranked(p, rank) && k in p && j in p
    ensures Compress(p, rank, k).Keys == p.Keys
    ensures Compress(p, rank, k)[j] == if j in Path(p, rank, k) then Root(p, rank, k) else p[j]
  {
    RedirectAt(p, Path(p, rank, k), Root(p, rank, k), j);
  }

  /** Looking up a root compresses nothing. */
  lemma CompressAtRoot<K>(p: map<K, K>, rank: map<K, int>, k: K)
    requires Ranked(p, rank) && k in p && p[k] == k
    ensures Compress(p, rank, k) == p
  {
    assert Path(p, rank, k) == [k];
    assert [k][..0] == [];
    assert Redirect(p, [k], k) == p[k := k];
  }

  /**
   Once the walk from `k` meets a self-loop, that node is the root and redirecting
   the nodes before it is the full compression.
   */
  lemma RedirectedToCompress<K>(p: map<K, K>, rank: map<K, int>, k: K, i: nat)
    requires Ranked(p, rank) && k in p && i < |Path(p, rank, k)|
    requires p[Path(p, rank, k)[i]] == Path(p, rank, k)[i]
    ensures Redirect(p, Path(p, rank, k)[..i], Root(p, rank, k)) == Compress(p, rank, k)
  {
    var path, r := Path(p, rank, k), Root(p, rank, k);
    var q := Redirect(p, path[..i], r);
    NotYetRedirected(p, rank, k, i, r);
    PathSteps(p, rank, k);
    assert i == |path| - 1;
    assert path == path[..i] + [path[i]];
    assert q == q[r := r];
  }

  /** Compression changes no key's root, so no group changes. */
  lemma {:induction false} CompressKeepsRoot<K>(p: map<K, K>, rank: map<K, int>, k: K, j: K)
    requires Ranked(p, rank) && k in p && j in p
    ensures Compress(p, rank, k).Keys == p.Keys && Ranked(Compress(p, rank, k), rank)
    ensures Root(Compress(p, rank, k), rank, j) == Root(p, rank, j)
    decreases Above(p, rank, j)
  {
    CompressRanked(p, rank, k);
    var q := Compress(p, rank, k);
    var path := Path(p, rank, k);
    var r := Root(p, rank, k);
    RedirectAt(p, path, r, j);
    if j in path {
      var i :| 0 <= i < |path| && path[i] == j;
      RootAlongPath(p, rank, k, i);
      RedirectAt(p, path, r, r);
      assert q[r] == r by { assert path[|path| - 1] == r; }
      assert Root(q, rank, r) == r;
    } else if p[j] != j {
      AboveShrinks(p, rank, j);
      CompressKeepsRoot(p, rank, k, p[j]);
    }
  }

  /**
   Every key of `p0` is still a key of `p1` with the same root, and a key that is
   new in `p1` is its own root there.
   */
  ghost predicate KeepsRoots<K>(p0: map<K, K>, r0: map<K, int>, p1: map<K, K>, r1: map<K, int>)
    requires Ranked(p0, r0) && Ranked(p1, r1)
  {
    p0.Keys <= p1.Keys && forall j {:trigger Root(p1, r1, j)} :: j in p1 ==> Root(p1, r1, j) == RootOf(p0, r0, j)
  }

  /** Every key keeps its root, and no key is added or removed. */
  ghost predicate SameRoots<K>(p0: map<K, K>, r0: map<K, int>, p1: map<K, K>, r1: map<K, int>)
    requires Ranked(p0, r0) && Ranked(p1, r1)
  {
    p1.Keys == p0.Keys && KeepsRoots(p0, r0, p1, r1)
  }

  /** Keeping every root is transitive. */
  lemma KeepsRootsTrans<K>(p0: map<K, K>, r0: map<K, int>, p1: map<K, K>, r1: map<K, int>, p2: map<K, K>, r2: map<K, int>)
    requires Ranked(p0, r0) && Ranked(p1, r1) && Ranked(p2, r2)
    requires KeepsRoots(p0, r0, p1, r1) && KeepsRoots(p1, r1, p2, r2)
    ensures KeepsRoots(p0, r0, p2, r2)
  {
  }

  /** Keeping every root and every key is transitive. */
  lemma SameRootsTrans<K>(p0: map<K, K>, r0: map<K, int>, p1: map<K, K>, r1: map<K, int>, p2: map<K, K>, r2: map<K, int>)
    requires Ranked(p0, r0) && Ranked(p1, r1) && Ranked(p2, r2)
    requires SameRoots(p0, r0, p1, r1) && SameRoots(p1, r1, p2, r2)
    ensures SameRoots(p0, r0, p2, r2)
  {
  }

  /**
   The groups after the group of `key` is merged into the group of `dependsOn`,
   both keys added first if absent: every key of the group of `key` takes the root
   of `dependsOn`, and every other key keeps its root.
   */
  ghost predicate Merged<K>(p0: map<K, K>, r0: map<K, int>, p1: map<K, K>, r1: map<K, int>, key: K, dependsOn: K)
    requires Ranked(p0, r0) && Ranked(p1, r1)
  {
    && p1.Keys == p0.Keys + {key, dependsOn}
    && forall j {:trigger Root(p1, r1, j)} :: j in p1 ==>
         Root(p1, r1, j) ==
           if RootOf(p0, r0, j) == RootOf(p0, r0, key) then RootOf(p0, r0, dependsOn) else RootOf(p0, r0, j)
  }

  /** After a merge `key` and `dependsOn` share a root: the root `dependsOn` had before. */
  lemma MergedJoins<K>(p0: map<K, K>, r0: map<K, int>, p1: map<K, K>, r1: map<K, int>, key: K, dependsOn: K)
    requires Ranked(p0, r0) && Ranked(p1, r1) && Merged(p0, r0, p1, r1, key, dependsOn)
    ensures key in p1 && dependsOn in p1
    ensures Root(p1, r1, key) == Root(p1, r1, dependsOn) == RootOf(p0, r0, dependsOn)
  {
  }

  /**
   Union no-op rule: when `key` and `dependsOn` already share a root, adding them
   while keeping every root is already the merge.
   */
  lemma MergedWhenJoined<K>(p0: map<K, K>, r0: map<K, int>, p1: map<K, K>, r1: map<K, int>, key: K, dependsOn: K)
    requires Ranked(p0, r0) && Ranked(p1, r1) && KeepsRoots(p0, r0, p1, r1)
    requires p1.Keys == p0.Keys + {key, dependsOn}
    requires RootOf(p0, r0, key) == RootOf(p0, r0, dependsOn)
    ensures Merged(p0, r0, p1, r1, key, dependsOn)
  {
  }

  /**
   Finding both keys keeps every root; merging their two roots afterwards is
   then the merge of the two keys' groups.
   */
  lemma MergedThroughRoots<K>(p0: map<K, K>, r0: map<K, int>, p1: map<K, K>, r1: map<K, int>,
                              p2: map<K, K>, r2: map<K, int>, key: K, dependsOn: K)
    requires Ranked(p0, r0) && Ranked(p1, r1) && Ranked(p2, r2) && KeepsRoots(p0, r0, p1, r1)
    requires p1.Keys == p0.Keys + {key, dependsOn}
    requires Merged(p1, r1, p2, r2, RootOf(p0, r0, key), RootOf(p0, r0, dependsOn))
    ensures Merged(p0, r0, p2, r2, key, dependsOn)
  {
  }

  /** The forest stands for the grouping `g`: its keys are the keys of `g`, each with root as `g` says. */
  ghost predicate GroupedAs<K>(p: map<K, K>, rank: map<K, int>, g: map<K, K>)
    requires Ranked(p, rank)
  {
    g.Keys == p.Keys && forall j {:trigger Root(p, rank, j)} :: j in p ==> Root(p, rank, j) == g[j]
  }

  /** Keeping every root and every key is leaving the grouping as it was. */
  lemma SameRootsIsSameGroups<K>(p0: map<K, K>, r0: map<K, int>, p1: map<K, K>, r1: map<K, int>, g: map<K, K>)
    requires Ranked(p0, r0) && Ranked(p1, r1) && GroupedAs(p0, r0, g)
    ensures SameRoots(p0, r0, p1, r1) <==> GroupedAs(p1, r1, g)
  {
  }

  /** A merge of the forest is union on the grouping it stands for. */
  lemma MergedIsUnion<K>(p0: map<K, K>, r0: map<K, int>, p1: map<K, K>, r1: map<K, int>, g: map<K, K>,
                         key: K, dependsOn: K)
    requires Ranked(p0, r0) && Ranked(p1, r1) && GroupedAs(p0, r0, g)
    requires Merged(p0, r0, p1, r1, key, dependsOn)
    ensures GroupedAs(p1, r1, Union(g, key, dependsOn))
  {
  }

  /** Conversely, a forest standing for the union on the grouping of `p0` is a merge of `p0`. */
  lemma UnionIsMerged<K>(p0: map<K, K>, r0: map<K, int>, p1: map<K, K>, r1: map<K, int>, g: map<K, K>,
                         key: K, dependsOn: K)
    requires Ranked(p0, r0) && Ranked(p1, r1) && GroupedAs(p0, r0, g)
    requires GroupedAs(p1, r1, Union(g, key, dependsOn))
    ensures Merged(p0, r0, p1, r1, key, dependsOn)
  {
  }

  /** Compression keeps the forest closed and acyclic and keeps every key's root. */
  lemma CompressSameRoots<K>(p: map<K, K>, rank: map<K, int>, k: K)
    requires Ranked(p, rank) && k in p
    ensures Ranked(Compress(p, rank, k), rank) && SameRoots(p, rank, Compress(p, rank, k), rank)
  {
    CompressRanked(p, rank, k);
    forall j {:trigger Root(Compress(p, rank, k), rank, j)} | j in Compress(p, rank, k)
      ensures Root(Compress(p, rank, k), rank, j) == Root(p, rank, j)
    {
      CompressKeepsRoot(p, rank, k, j);
    }
  }

  /** The ranks after linking root `c` under root `d`: only `d` may be raised. */
  function Raise<K>(rank: map<K, int>, c: K, d: K): map<K, int>
    requires c in rank && d in rank
  {
    rank[d := if rank[d] > rank[c] then rank[d] else rank[c] + 1]
  }

  /** Linking one root under another root keeps the forest closed and acyclic. */
  lemma LinkRanked<K>(p: map<K, K>, rank: map<K, int>, c: K, d: K)
    requires Ranked(p, rank) && c in p && d in p && p[c] == c && p[d] == d && c != d
    ensures Ranked(p[c := d], Raise(rank, c, d))
  {
  }

  /**
   After linking root `c` under root `d`, every key of `c`'s group has root `d`
   and every other key keeps its root.
   */
  lemma {:induction false} LinkRoot<K>(p: map<K, K>, rank: map<K, int>, c: K, d: K, j: K)
    requires Ranked(p, rank) && c in p && d in p && p[c] == c && p[d] == d && c != d
    requires j in p
    ensures Ranked(p[c := d], Raise(rank, c, d))
    ensures Root(p[c := d], Raise(rank, c, d), j) == if Root(p, rank, j) == c then d else Root(p, rank, j)
    decreases Above(p, rank, j)
  {
    LinkRanked(p, rank, c, d);
    var q, rk := p[c := d], Raise(rank, c, d);
    if j == c {
      assert Root(q, rk, d) == d;
    } else if p[j] != j {
      AboveShrinks(p, rank, j);
      LinkRoot(p, rank, c, d, p[j]);
    }
  }

  /** Adding an absent key as a self-loop of rank 0 keeps the forest closed and acyclic. */
  lemma VivifyRanked<K>(p: map<K, K>, rank: map<K, int>, k: K)
    requires Ranked(p, rank) && k !in p
    ensures Ranked(p[k := k], rank[k := 0])
  {
  }

  /** Adding an absent key as a self-loop of rank 0 leaves every other root as it was. */
  lemma {:induction false} VivifyKeepsRoot<K>(p: map<K, K>, rank: map<K, int>, k: K, j: K)
    requires Ranked(p, rank) && k !in p && j in p
    ensures Ranked(p[k := k], rank[k := 0])
    ensures Root(p[k := k], rank[k := 0], j) == Root(p, rank, j)
    decreases Above(p, rank, j)
  {
    VivifyRanked(p, rank, k);
    if p[j] != j {
      AboveShrinks(p, rank, j);
      VivifyKeepsRoot(p, rank, k, p[j]);
    }
  }

  /** Adding an absent key as a self-loop keeps the forest valid and keeps every root; the new key is its own root. */
  lemma VivifyKeeps<K>(p: map<K, K>, rank: map<K, int>, k: K)
    requires Ranked(p, rank) && k !in p
    ensures Ranked(p[k := k], rank[k := 0]) && KeepsRoots(p, rank, p[k := k], rank[k := 0])
  {
    VivifyRanked(p, rank, k);
    forall j {:trigger Root(p[k := k], rank[k := 0], j)} | j in p[k := k]
      ensures Root(p[k := k], rank[k := 0], j) == RootOf(p, rank, j)
    {
      if j in p {
        VivifyKeepsRoot(p, rank, k, j);
      }
    }
  }

  /** Linking root `c` under the different root `d` keeps the forest valid and merges the group of `c` into that of `d`. */
  lemma LinkMerges<K>(p: map<K, K>, rank: map<K, int>, c: K, d: K)
    requires Ranked(p, rank) && c in p && d in p && p[c] == c && p[d] == d && c != d
    ensures Ranked(p[c := d], Raise(rank, c, d)) && Merged(p, rank, p[c := d], Raise(rank, c, d), c, d)
  {
    LinkRanked(p, rank, c, d);
    assert RootOf(p, rank, c) == c && RootOf(p, rank, d) == d;
    forall j {:trigger Root(p[c := d], Raise(rank, c, d), j)} | j in p[c := d]
      ensures Root(p[c := d], Raise(rank, c, d), j) == if RootOf(p, rank, j) == c then d else RootOf(p, rank, j)
    {
      LinkRoot(p, rank, c, d, j);
    }
  }
}
