/** Paths of a relation, and circles: in a finite set, paths are bounded iff there is no circle. */
module Circles {

  ghost predicate LinkAt<T(!new)>(r: (T, T) -> bool, s: seq<T>, i: nat) {
    i + 1 < |s| && r(s[i], s[i + 1])
  }

  ghost predicate IsPath<T(!new)>(r: (T, T) -> bool, s: seq<T>) {
    |s| > 0 && forall i: nat :: i + 1 < |s| ==> LinkAt(r, s, i)
  }

  ghost predicate IsCircle<T(!new)>(r: (T, T) -> bool, s: seq<T>) {
    IsPath(r, s) && |s| > 1 && s[0] == s[|s| - 1]
  }

  ghost predicate HasCircle<T(!new)>(r: (T, T) -> bool) {
    exists s: seq<T> :: IsCircle(r, s)
  }

  /** A sequence longer than a set it draws from repeats an element. */
  lemma {:induction false} Pigeonhole<T>(s: seq<T>, all: set<T>) returns (a: nat, b: nat)
    requires |s| > |all| && forall i :: 0 <= i < |s| ==> s[i] in all
    ensures a < b < |s| && s[a] == s[b]
    decreases |s|
  {
    var last := |s| - 1;
    assert s[last] in all;
    if k :| 0 <= k < last && s[k] == s[last] {
      a, b := k, last;
    } else {
      a, b := Pigeonhole(s[..last], all - {s[last]});
    }
  }

  /** Without a circle a path visits no element twice. */
  lemma PathWithin<T(!new)>(r: (T, T) -> bool, s: seq<T>, all: set<T>)
    requires IsPath(r, s) && !HasCircle(r) && forall i :: 0 <= i < |s| ==> s[i] in all
    ensures |s| <= |all|
  {
    if |s| > |all| {
      var a, b := Pigeonhole(s, all);
      var round := s[a..b + 1];
      forall i: nat | i + 1 < |round| ensures LinkAt(r, round, i) {
        assert LinkAt(r, s, a + i);
      }
      assert IsCircle(r, round);
    }
  }

  /** The position after `i` steps round a circle of `m`. */
  ghost function Spot(i: nat, m: nat): (k: nat)
    requires m > 0
    ensures k < m
  {
    if i == 0 || Spot(i - 1, m) + 1 == m then 0 else Spot(i - 1, m) + 1
  }

  /** Round a circle for as many steps as one likes. */
  lemma RoundTheCircle<T(!new)>(r: (T, T) -> bool, s: seq<T>, n: nat) returns (t: seq<T>)
    requires IsCircle(r, s)
    ensures IsPath(r, t) && |t| == n + 1
  {
    var m := |s| - 1;
    t := seq(n + 1, i requires 0 <= i => s[Spot(i, m)]);
    forall i: nat | i + 1 < |t| ensures LinkAt(r, t, i) {
      assert LinkAt(r, s, Spot(i, m));
    }
  }

  lemma PathPrefix<T(!new)>(r: (T, T) -> bool, s: seq<T>, n: nat)
    requires IsPath(r, s) && 0 < n <= |s|
    ensures IsPath(r, s[..n])
  {
    forall i: nat | i + 1 < n ensures LinkAt(r, s[..n], i) {
      assert LinkAt(r, s, i);
    }
  }

  lemma PathAppend<T(!new)>(r: (T, T) -> bool, s: seq<T>, x: T)
    requires IsPath(r, s) && r(s[|s| - 1], x)
    ensures IsPath(r, s + [x])
  {
    forall i: nat | i + 1 < |s + [x]| ensures LinkAt(r, s + [x], i) {
      if i + 1 < |s| {
        assert LinkAt(r, s, i);
      }
    }
  }

  // ----- from one element on

  /** A path from `x` that comes back to where it was at `i`. */
  ghost predicate IsLasso<T(!new)>(r: (T, T) -> bool, x: T, s: seq<T>, i: nat) {
    IsPath(r, s) && s[0] == x && i + 1 < |s| && s[i] == s[|s| - 1]
  }

  /** Some circle can be reached from `x`. */
  ghost predicate HasLasso<T(!new)>(r: (T, T) -> bool, x: T) {
    exists s: seq<T>, i: nat :: IsLasso(r, x, s, i)
  }

  /** If no circle can be reached from where a path starts, it visits no element twice. */
  lemma PathFromWithin<T(!new)>(r: (T, T) -> bool, s: seq<T>, all: set<T>)
    requires IsPath(r, s) && !HasLasso(r, s[0]) && forall i :: 0 <= i < |s| ==> s[i] in all
    ensures |s| <= |all|
  {
    if |s| > |all| {
      var a, b := Pigeonhole(s, all);
      var there := s[..b + 1];
      forall i: nat | i + 1 < |there| ensures LinkAt(r, there, i) {
        assert LinkAt(r, s, i);
      }
      assert IsLasso(r, s[0], there, a);
    }
  }

  /** To a circle and round it, for as many steps as one likes. */
  lemma IntoTheCircle<T(!new)>(r: (T, T) -> bool, x: T, s: seq<T>, a: nat, n: nat) returns (t: seq<T>)
    requires IsLasso(r, x, s, a)
    ensures IsPath(r, t) && t[0] == x && |t| == n + 1
  {
    var last, m := |s| - 1, |s| - 1 - a;
    t := seq(n + 1, i requires 0 <= i => if i < last then s[i] else s[a + Spot(i - last, m)]);
    forall i: nat | i + 1 < |t| ensures LinkAt(r, t, i) {
      if i < last {
        assert LinkAt(r, s, i);
        assert i + 1 == last ==> Spot(i + 1 - last, m) == 0;
        assert t[i + 1] == s[i + 1];
      } else {
        var k := Spot(i - last, m);
        assert Spot(i + 1 - last, m) == if k + 1 == m then 0 else k + 1;
        assert LinkAt(r, s, a + k);
        assert t[i + 1] == s[a + k + 1];
      }
    }
  }

  // ----- counting

  /** Pairs with one first component are no more than their second components. */
  lemma {:induction false} PairsOfOne<A, B>(pairs: set<(A, B)>, a: A, bs: set<B>)
    requires forall p :: p in pairs ==> p.0 == a && p.1 in bs
    ensures |pairs| <= |bs|
  {
    if pairs == {} {
    } else {
      var p :| p in pairs;
      PairsOfOne(pairs - {p}, a, bs - {p.1});
    }
  }

  lemma {:induction false} PairsWithin<A, B>(pairs: set<(A, B)>, firsts: set<A>, bs: set<B>)
    requires forall p :: p in pairs ==> p.0 in firsts && p.1 in bs
    ensures |pairs| <= |firsts| * |bs|
  {
    if firsts == {} {
      assert pairs == {};
    } else {
      var a :| a in firsts;
      var mine := set p | p in pairs && p.0 == a;
      PairsOfOne(mine, a, bs);
      PairsWithin(pairs - mine, firsts - {a}, bs);
      assert pairs == (pairs - mine) + mine;
      OneMoreRow(|pairs - mine|, |mine|, |firsts| - 1, |bs|);
    }
  }

  lemma OneMoreRow(rest: nat, mine: nat, a: nat, b: nat)
    requires rest <= a * b && mine <= b
    ensures rest + mine <= (a + 1) * b
  {
  }

  /** Different elements with different images are as many as their images. */
  lemma {:induction false} ImagesOf<A, B>(xs: set<A>, f: A -> B, images: set<B>)
    requires forall x :: x in xs ==> f(x) in images
    requires forall x, y :: x in xs && y in xs && f(x) == f(y) ==> x == y
    ensures |xs| <= |images|
  {
    if xs == {} {
    } else {
      var x :| x in xs;
      ImagesOf(xs - {x}, f, images - {f(x)});
    }
  }
}
