/**
 Concrete uses of the container, each with the outcome its contracts force.
 */
module Scenarios {
  import opened Groups
  import opened Forest
  import opened DisjointSet

  /** Building from the chain `1 -> 2 -> 3` puts all three keys under the root `3`. */
  method ChainRoot() returns (r: int)
    ensures r == 3
  {
    var s := new RootedDisjointSet<int>([(1, 2), (2, 3)]);
    ReplayChain();
    assert Root(s.parent, s.rank, 1) == 3;
    r := s.FindRoot(1);
  }

  /**
   Starting empty, with keys `1`, `2`, `3` for `x`, `y`, `z`: `x` on `y` makes
   `y` the root of `x`; `y` on `z` moves the whole group under `z`; `z` on `x`
   then changes no root, the two already being in one group.
   */
  method ChainOfUnions() returns (first: int, second: int, rx: int, ry: int, rz: int)
    ensures first == 2 && second == 3
    ensures rx == 3 && ry == 3 && rz == 3
  {
    var s := new RootedDisjointSet<int>([]);
    s.SetDependent(1, 2);
    first := s.FindRoot(1);
    s.SetDependent(2, 3);
    second := s.FindRoot(1);
    rx, ry, rz := UnionInOneGroup(s);
  }

  /** With `1`, `2` and `3` in one group rooted at `3`, making `3` depend on `1` changes no root. */
  method UnionInOneGroup(s: RootedDisjointSet<int>) returns (rx: int, ry: int, rz: int)
    requires s.Valid() && 1 in s.parent && 2 in s.parent && 3 in s.parent
    requires Root(s.parent, s.rank, 1) == 3 && Root(s.parent, s.rank, 2) == 3 && Root(s.parent, s.rank, 3) == 3
    modifies s
    ensures rx == 3 && ry == 3 && rz == 3
  {
    s.SetDependent(3, 1);
    rx := s.FindRoot(1);
    ry := s.FindRoot(2);
    rz := s.FindRoot(3);
  }

  /** Right after `key` is made to depend on `dependsOn`, the two keys have the same root. */
  method SameAfterUnion<K>(s: RootedDisjointSet<K>, key: K, dependsOn: K) returns (same: bool)
    requires s.Valid()
    modifies s
    ensures same
  {
    s.SetDependent(key, dependsOn);
    same := s.HaveSameRoot(key, dependsOn);
  }

  /**
   `{1: 2}` and `{2: 1}` both make one group of `1` and `2`, yet they compare
   unequal: the group's root is `2` in the first and `1` in the second.
   */
  method OrderMatters() returns (eq: bool)
    ensures !eq
  {
    var s := new RootedDisjointSet<int>([(1, 2)]);
    var t := new RootedDisjointSet<int>([(2, 1)]);
    var one: seq<(int, int)> := [(1, 2)];
    var none: seq<(int, int)> := [];
    assert one[..0] == none;
    assert s.order == [2, 1] && t.order == [1, 2];
    assert Replay(map[], [(1, 2)]) == Union(map[], 1, 2);
    assert Replay(map[], [(2, 1)]) == Union(map[], 2, 1);
    RootsAlongAt(s.parent, s.rank, s.order, 0);
    RootsAlongAt(t.parent, t.rank, t.order, 0);
    assert Root(s.parent, s.rank, 2) == 2 && Root(t.parent, t.rank, 1) == 1;
    eq := s.Equals(t);
  }

  /** `{1: 1, 2: 2}` and `{2: 2, 1: 1}` stand for the same grouping: every key is its own root. */
  lemma OwnRootsEitherOrder()
    ensures Replay(map[], [(1, 1), (2, 2)]) == map[1 := 1, 2 := 2]
    ensures Replay(map[], [(2, 2), (1, 1)]) == map[1 := 1, 2 := 2]
  {
    var none: seq<(int, int)> := [];
    assert [(1, 1), (2, 2)][..1] == [(1, 1)] && [(1, 1)][..0] == none;
    assert [(2, 2), (1, 1)][..1] == [(2, 2)] && [(2, 2)][..0] == none;
    assert Union(map[], 1, 1) == map[1 := 1] && Union(map[], 2, 2) == map[2 := 2];
    assert Union(map[1 := 1], 2, 2).Keys == {1, 2} && Union(map[2 := 2], 1, 1).Keys == {1, 2};
  }

  /** Built from `{1: 1, 2: 2}` the keys are listed `1, 2`; built from `{2: 2, 1: 1}`, `2, 1`. */
  lemma OrderOfOwnRoots()
    ensures ReplayedOrder([], [(1, 1), (2, 2)]) == [1, 2]
    ensures ReplayedOrder([], [(2, 2), (1, 1)]) == [2, 1]
  {
    var none: seq<(int, int)> := [];
    assert [(1, 1), (2, 2)][..1] == [(1, 1)] && [(1, 1)][..0] == none;
    assert [(2, 2), (1, 1)][..1] == [(2, 2)] && [(2, 2)][..0] == none;
  }

  /**
   Positional equality depends on insertion order: `{1: 1, 2: 2}` and
   `{2: 2, 1: 1}` stand for the same grouping, every key its own root, yet
   they compare unequal, because the first lists `1` first and the second
   lists `2` first.
   */
  method InsertionOrderMatters() returns (eq: bool)
    ensures !eq
  {
    var s := new RootedDisjointSet<int>([(1, 1), (2, 2)]);
    var t := new RootedDisjointSet<int>([(2, 2), (1, 1)]);
    OwnRootsEitherOrder();
    OrderOfOwnRoots();
    RootsAlongAt(s.parent, s.rank, s.order, 0);
    RootsAlongAt(t.parent, t.rank, t.order, 0);
    assert Root(s.parent, s.rank, 1) == 1 && Root(t.parent, t.rank, 2) == 2;
    eq := s.Equals(t);
  }
}
