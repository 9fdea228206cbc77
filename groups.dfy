/**
 The grouping a rooted disjoint set stands for, independent of its parent
 pointers: a root map sends every key to the root of its group. Union on root
 maps is the reference the container's pointer-level union is proved against.
 */
module Groups {

  /** The root of `k` in the root map `g`; a key not in `g` is its own singleton group. */
  function RootIn<K>(g: map<K, K>, k: K): K
  {
    if k in g then g[k] else k
  }

  /** Union on root maps: both keys are added, and the whole group of `key` takes the root of `dependsOn`. */
  function Union<K>(g: map<K, K>, key: K, dependsOn: K): map<K, K>
  {
    map j | j in g.Keys + {key, dependsOn} ::
      if RootIn(g, j) == RootIn(g, key) then RootIn(g, dependsOn) else RootIn(g, j)
  }

  /** Union applied to every pair `(key, dependsOn)` of `deps` in turn, starting from `g`. */
  function Replay<K>(g: map<K, K>, deps: seq<(K, K)>): map<K, K>
  {
    if deps == [] then g
    else
      var (k, v) := deps[|deps| - 1];
      Union(Replay(g, deps[..|deps| - 1]), k, v)
  }

  /** After a union both keys are present and share the root `dependsOn` had before. */
  lemma UnionJoins<K>(g: map<K, K>, key: K, dependsOn: K)
    ensures key in Union(g, key, dependsOn) && dependsOn in Union(g, key, dependsOn)
    ensures Union(g, key, dependsOn)[key] == Union(g, key, dependsOn)[dependsOn] == RootIn(g, dependsOn)
  {
  }

  /** Union never splits a group: two keys with the same root keep sharing one. */
  lemma UnionKeepsJoined<K>(g: map<K, K>, key: K, dependsOn: K, a: K, b: K)
    requires a in g && b in g && g[a] == g[b]
    ensures a in Union(g, key, dependsOn) && b in Union(g, key, dependsOn)
    ensures Union(g, key, dependsOn)[a] == Union(g, key, dependsOn)[b]
  {
  }

  /** When `key` and `dependsOn` already share a root, union only adds the two keys. */
  lemma UnionWhenJoined<K>(g: map<K, K>, key: K, dependsOn: K)
    requires RootIn(g, key) == RootIn(g, dependsOn)
    ensures forall j :: RootIn(Union(g, key, dependsOn), j) == RootIn(g, j)
  {
  }

  /** Repeating a union changes nothing. */
  lemma UnionIdempotent<K>(g: map<K, K>, key: K, dependsOn: K)
    ensures Union(Union(g, key, dependsOn), key, dependsOn) == Union(g, key, dependsOn)
  {
  }

  /** Replaying one more pair is one more union. */
  lemma ReplayStep<K>(g: map<K, K>, deps: seq<(K, K)>, n: nat)
    requires n < |deps|
    ensures Replay(g, deps[..n + 1]) == Union(Replay(g, deps[..n]), deps[n].0, deps[n].1)
  {
    assert deps[..n + 1][..n] == deps[..n];
  }

  /** After a replay both keys of every pair are present and in the same group. */
  lemma {:induction false} ReplayJoins<K>(g: map<K, K>, deps: seq<(K, K)>)
    ensures forall i :: 0 <= i < |deps| ==>
      deps[i].0 in Replay(g, deps) && deps[i].1 in Replay(g, deps) &&
      Replay(g, deps)[deps[i].0] == Replay(g, deps)[deps[i].1]
  {
    if deps != [] {
      var init, k, v := deps[..|deps| - 1], deps[|deps| - 1].0, deps[|deps| - 1].1;
      var h := Replay(g, init);
      ReplayJoins(g, init);
      UnionJoins(h, k, v);
      forall i | 0 <= i < |deps| - 1
        ensures deps[i].0 in Replay(g, deps) && deps[i].1 in Replay(g, deps)
        ensures Replay(g, deps)[deps[i].0] == Replay(g, deps)[deps[i].1]
      {
        assert deps[i] == init[i];
        UnionKeepsJoined(h, k, v, deps[i].0, deps[i].1);
      }
    }
  }

  /** A replay from scratch: a chain of dependencies ends in one group rooted at its last key. */
  lemma ReplayChain()
    ensures Replay(map[], [(1, 2), (2, 3)]) == map[1 := 3, 2 := 3, 3 := 3]
  {
  }
}
