/**
 * Tree-shaped topologies. Nodes are numbered in the order they were linked in, so every
 * node but node 0 has one link to a node numbered before it.
 */
module Tree {

  datatype Tree = Linked(parent: seq<nat>)

  ghost predicate IsTree(t: Tree) {
    |t.parent| > 0 && forall k :: 1 <= k < |t.parent| ==> t.parent[k] < k
  }

  ghost predicate Adj(t: Tree, a: nat, b: nat) {
    a < |t.parent| && b < |t.parent| && ((a > 0 && t.parent[a] == b < a) || (b > 0 && t.parent[b] == a < b))
  }

  /** Node `x` is `v` or was linked in, directly or not, below it. */
  ghost predicate InSub(t: Tree, v: nat, x: nat)
    requires IsTree(t) && v < |t.parent| && x < |t.parent|
  {
    x == v || (x > 0 && InSub(t, v, t.parent[x]))
  }

  ghost function ChildToward(t: Tree, v: nat, x: nat): (c: nat)
    requires IsTree(t) && v < |t.parent| && x < |t.parent|
    requires InSub(t, v, x) && x != v
    ensures c < |t.parent| && c > 0 && t.parent[c] == v && InSub(t, c, x)
  {
    if t.parent[x] == v then x else ChildToward(t, v, t.parent[x])
  }

  lemma SubtreeOfRoot(t: Tree, x: nat)
    requires IsTree(t) && x < |t.parent|
    ensures InSub(t, 0, x)
  {
    if x == 0 {
    } else {
      SubtreeOfRoot(t, t.parent[x]);
    }
  }

  /** The neighbour of `a` on the way to `x`. */
  ghost function Toward(t: Tree, a: nat, x: nat): (b: nat)
    requires IsTree(t) && a < |t.parent| && x < |t.parent| && a != x
    ensures Adj(t, a, b)
  {
    SubtreeOfRoot(t, x);
    if InSub(t, a, x) then ChildToward(t, a, x) else t.parent[a]
  }

  /** Node `x` lies across the link from `a` to `b`. */
  ghost predicate Beyond(t: Tree, a: nat, b: nat, x: nat)
    requires IsTree(t)
  {
    a < |t.parent| && x < |t.parent| && x != a && Toward(t, a, x) == b
  }

  lemma {:induction false} SubtreeBelow(t: Tree, v: nat, x: nat)
    requires IsTree(t) && v < |t.parent| && x < |t.parent| && InSub(t, v, x)
    ensures v <= x
  {
    if x == v {
    } else {
      SubtreeBelow(t, v, t.parent[x]);
    }
  }

  lemma {:induction false} SubtreeTransitive(t: Tree, u: nat, v: nat, x: nat)
    requires IsTree(t) && u < |t.parent| && v < |t.parent| && x < |t.parent|
    requires InSub(t, u, v) && InSub(t, v, x)
    ensures InSub(t, u, x)
  {
    if x == v {
    } else {
      SubtreeTransitive(t, u, v, t.parent[x]);
    }
  }

  lemma {:induction false} ChildTowardUnique(t: Tree, v: nat, c: nat, x: nat)
    requires IsTree(t) && v < |t.parent| && 0 < c < |t.parent| && x < |t.parent|
    requires t.parent[c] == v && InSub(t, c, x)
    ensures x != v && InSub(t, v, x) && ChildToward(t, v, x) == c
  {
    SubtreeBelow(t, c, x);
    SubtreeTransitive(t, v, c, x);
    if x == c {
    } else {
      ChildTowardUnique(t, v, c, t.parent[x]);
    }
  }

  lemma BeyondChild(t: Tree, u: nat, v: nat, x: nat)
    requires IsTree(t) && u < |t.parent| && 0 < v < |t.parent| && t.parent[v] == u && x < |t.parent|
    ensures Beyond(t, u, v, x) <==> InSub(t, v, x)
    ensures Beyond(t, v, u, x) <==> !InSub(t, v, x)
  {
    SubtreeOfRoot(t, x);
    if InSub(t, v, x) {
      ChildTowardUnique(t, u, v, x);
    }
  }

  /** A link splits the nodes in two: every node lies across it from exactly one of its ends. */
  lemma LinkSplits(t: Tree, u: nat, v: nat, x: nat)
    requires IsTree(t) && Adj(t, u, v) && x < |t.parent|
    ensures Beyond(t, u, v, x) != Beyond(t, v, u, x)
  {
    if v > 0 && t.parent[v] == u {
      BeyondChild(t, u, v, x);
    } else {
      BeyondChild(t, v, u, x);
    }
  }

  /** Going on across a further link, the nodes ahead become fewer. */
  lemma BeyondShrinks(t: Tree, u: nat, v: nat, w: nat, x: nat)
    requires IsTree(t) && Adj(t, u, v) && Adj(t, v, w) && w != u && Beyond(t, v, w, x)
    ensures Beyond(t, u, v, x) && x != v && !Beyond(t, w, v, x)
  {
    LinkSplits(t, u, v, x);
    LinkSplits(t, v, w, x);
  }

  /** How far a frame on the link from `u` to `v` can still go: first up the tree, then down. */
  ghost function Reach(t: Tree, u: nat, v: nat): nat
    requires IsTree(t) && Adj(t, u, v)
  {
    if u > 0 && t.parent[u] == v then |t.parent| + v + 1 else |t.parent| - v
  }
}
