/** Option, and the few facts about sequences that several modules share. */
module Wrappers {

  datatype Option<+T> = None | Some(value: T)

  /** The entries of `s` that satisfy `keep`, in order. */
  function Filter<T>(s: seq<T>, keep: T -> bool): seq<T>
  {
    if s == [] then [] else (if keep(s[0]) then [s[0]] else []) + Filter(s[1..], keep)
  }

  lemma FilterMembers<T(!new)>(s: seq<T>, keep: T -> bool)
    ensures forall x :: x in Filter(s, keep) <==> x in s && keep(x)
  {
  }

  lemma FilterAppend<T>(a: seq<T>, b: seq<T>, keep: T -> bool)
    ensures Filter(a + b, keep) == Filter(a, keep) + Filter(b, keep)
  {
    if a == [] {
      assert a + b == b;
    } else {
      assert (a + b)[1..] == a[1..] + b;
    }
  }

  /** One round of a loop that drops what `keep` refuses from `seen + rest`. */
  lemma FilterRound<T>(seen: seq<T>, rest: seq<T>, keep: T -> bool)
    requires rest != []
    ensures Filter(seen + [rest[0]], keep) == Filter(seen, keep) + if keep(rest[0]) then [rest[0]] else []
    ensures seen + [rest[0]] + rest[1..] == seen + rest
  {
    FilterAppend(seen, [rest[0]], keep);
  }

  lemma FilterNone<T>(s: seq<T>, keep: T -> bool)
    requires forall d :: d in s ==> !keep(d)
    ensures Filter(s, keep) == []
  {
  }

  function InsertAt<T>(s: seq<T>, i: nat, x: T): seq<T>
    requires i <= |s|
  {
    s[..i] + [x] + s[i..]
  }

  function DropAt<T>(s: seq<T>, i: nat): seq<T>
    requires i < |s|
  {
    s[..i] + s[i + 1..]
  }

  /** The first entry of the second part is dropped, or goes to the first part. */
  lemma NextOf<T>(front: seq<T>, rest: seq<T>)
    requires rest != []
    ensures DropAt(front + rest, |front|) == front + rest[1..]
    ensures front + rest == (front + [rest[0]]) + rest[1..]
  {
  }

  /** The first entry of `s` that satisfies `p`. */
  function First<T>(s: seq<T>, p: T -> bool): (r: Option<T>)
    ensures r.None? <==> forall x :: x in s ==> !p(x)
    ensures r.Some? ==> r.value in s && p(r.value)
  {
    if s == [] then None else if p(s[0]) then Some(s[0]) else First(s[1..], p)
  }
}
