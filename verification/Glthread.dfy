/**
 * The intrusive doubly linked list every table of the stack is built on.
 *
 * A `Glue` is a list link together with the structure that embeds it: following the
 * link to its structure is a field read here, pointer arithmetic in the program.
 * A list is a head link, whose `data` is never read, followed by the entries.
 */
module Glthread {
  import opened Wrappers

  class Glue<T> {
    var left: Glue?<T>
    var right: Glue?<T>
    var data: T

    constructor (data: T)
      ensures left == null && right == null && this.data == data
    {
      left, right, this.data := null, null, data;
    }
  }

  /** `all` is a well-formed list: `all[0]` is its head and its entries follow. */
  ghost predicate IsList<T>(all: seq<Glue<T>>)
    reads set i | 0 <= i < |all| :: all[i]
  {
    && |all| > 0
    && all[0].left == null
    && all[|all| - 1].right == null
    && (forall i {:trigger all[i].right} :: 0 <= i < |all| - 1 ==> all[i].right == all[i + 1])
    && (forall i {:trigger all[i].left} :: 0 < i < |all| ==> all[i].left == all[i - 1])
    && (forall i, j :: 0 <= i < j < |all| ==> all[i] != all[j])
  }

  method AddNext<T>(curr: Glue<T>, new_: Glue<T>, ghost all: seq<Glue<T>>, ghost i: nat)
    requires IsList(all) && i < |all| && curr == all[i]
    requires (forall j :: 0 <= j < |all| ==> all[j] != new_) && new_.left == null && new_.right == null
    modifies all`left, all`right, new_`left, new_`right
    ensures IsList(InsertAt(all, i + 1, new_))
  {
    if curr.right == null {
      curr.right := new_;
      new_.left := curr;
      return;
    }
    var temp := curr.right;
    curr.right := new_;
    new_.left := curr;
    new_.right := temp;
    temp.left := new_;
  }

  method AddBefore<T>(curr: Glue<T>, new_: Glue<T>, ghost all: seq<Glue<T>>, ghost i: nat)
    requires IsList(all) && i < |all| && curr == all[i]
    requires (forall j :: 0 <= j < |all| ==> all[j] != new_) && new_.left == null && new_.right == null
    modifies all`left, all`right, new_`left, new_`right
    ensures IsList(InsertAt(all, i, new_))
  {
    if curr.left == null {
      new_.left := null;
      new_.right := curr;
      curr.left := new_;
      return;
    }
    var temp := curr.left;
    temp.right := new_;
    new_.left := temp;
    new_.right := curr;
    curr.left := new_;
  }

  /** Unlinks an entry; unlinking the head cuts it off from its entries, which stay a list. */
  method Remove<T>(curr: Glue<T>, ghost all: seq<Glue<T>>, ghost i: nat)
    requires IsList(all) && i < |all| && curr == all[i]
    modifies all`left, all`right
    ensures IsList([curr])
    ensures |all| > 1 ==> IsList(DropAt(all, i))
  {
    if curr.left == null {
      if curr.right != null {
        curr.right.left := null;
        curr.right := null;
      }
      return;
    }
    if curr.right == null {
      curr.left.right := null;
      curr.left := null;
      return;
    }
    curr.left.right := curr.right;
    curr.right.left := curr.left;
    curr.left := null;
    curr.right := null;
  }

  /**
   * A list: `links` is its head followed by its entries, and `entries` is what these
   * embed, front first.
   */
  class GlList<T> {
    const head: Glue<T>
    ghost var links: seq<Glue<T>>
    ghost var entries: seq<T>

    ghost var repr: set<Glue<T>>

    ghost predicate Valid()
      reads this, repr
    {
      && (forall i :: 0 <= i < |links| ==> links[i] in repr)
      && IsList(links) && links[0] == head
      && |links| == |entries| + 1
      && (forall i :: 0 < i < |links| ==> links[i].data == entries[i - 1])
    }

    constructor (unused: T)
      ensures Valid() && links == [head] && entries == [] && repr == {head} && fresh(head)
    {
      head := new Glue(unused);
      links, entries, repr := [head], [], {head};
    }

    /** `glthread_add_next` on the head: the new entry comes first. */
    method Push(n: Glue<T>)
      requires Valid() && n !in repr && n.left == null && n.right == null
      modifies this, repr, n`left, n`right
      ensures Valid() && links == [head, n] + old(links)[1..] && repr == old(repr) + {n}
      ensures entries == [n.data] + old(entries)
    {
      AddNext(head, n, links, 0);
      ghost var links' := [head, n] + links[1..];
      assert InsertAt(links, 1, n) == links';
      links, entries, repr := links', [n.data] + entries, repr + {n};
    }

    /** `glthread_add_last`: walk to the last entry, or stay at the head of an empty list. */
    method AddLast(n: Glue<T>)
      requires Valid() && n !in repr && n.left == null && n.right == null
      modifies this, repr, n`left, n`right
      ensures Valid() && links == old(links) + [n] && repr == old(repr) + {n}
      ensures entries == old(entries) + [n.data]
    {
      var prev: Glue?<T>, curr := null, head.right;
      ghost var k := 0;
      while curr != null
        invariant 0 <= k < |links|
        invariant curr == if k + 1 < |links| then links[k + 1] else null
        invariant prev == if k == 0 then null else links[k]
        decreases |links| - k
      {
        prev := curr;
        curr := curr.right;
        k := k + 1;
      }
      if prev != null {
        AddNext(prev, n, links, k);
      } else {
        AddNext(head, n, links, k);
      }
      assert InsertAt(links, |links|, n) == links + [n];
      links, entries, repr := links + [n], entries + [n.data], repr + {n};
    }

    method Count() returns (count: nat)
      requires Valid()
      ensures count == |entries|
    {
      count := 0;
      var curr := head.right;
      while curr != null
        invariant 0 <= count < |links|
        invariant curr == if count + 1 < |links| then links[count + 1] else null
        decreases |links| - count
      {
        count := count + 1;
        curr := curr.right;
      }
    }

    /** The lookup loop of every table: the first entry that satisfies `p`, at `k`, or null. */
    method Find(p: T -> bool) returns (n: Glue?<T>, ghost k: nat)
      requires Valid()
      ensures n == null <==> First(entries, p).None?
      ensures n != null ==> k < |entries| && n == links[k + 1] && p(entries[k])
      ensures n != null ==> First(entries, p) == Some(entries[k]) && forall j :: 0 <= j < k ==> !p(entries[j])
    {
      k := 0;
      n := head.right;
      while n != null
        invariant 0 <= k < |links|
        invariant n == if k + 1 < |links| then links[k + 1] else null
        invariant forall j :: 0 <= j < k ==> !p(entries[j])
        invariant First(entries, p) == First(entries[k..], p)
        decreases |links| - k
      {
        if p(n.data) {
          return;
        }
        n := n.right;
        k := k + 1;
      }
    }

    /** Overwrites the structure embedding the `k`-th entry; the links stay as they are. */
    method Overwrite(n: Glue<T>, ghost k: nat, d: T)
      requires Valid() && k < |entries| && n == links[k + 1]
      modifies this`entries, n`data
      ensures Valid() && entries == old(entries)[k := d]
    {
      n.data := d;
      entries := entries[k := d];
    }

    /** `remove_glthread` on the `i`-th link, which is not the head. */
    method Unlink(n: Glue<T>, ghost i: nat)
      requires Valid() && 0 < i < |links| && n == links[i]
      modifies this, repr`left, repr`right
      ensures Valid() && IsList([n])
      ensures links == DropAt(old(links), i) && entries == DropAt(old(entries), i - 1)
      ensures repr == old(repr)
    {
      Remove(n, links, i);
      links, entries := DropAt(links, i), DropAt(entries, i - 1);
    }

    /** The list holds what was kept so far and then the rest, which begins at `curr`. */
    ghost predicate At(curr: Glue?<T>, kept: seq<T>, rest: seq<T>)
      reads this, repr
    {
      && Valid() && entries == kept + rest
      && curr == if rest == [] then null else links[|kept| + 1]
    }

    /** One round: the successor is saved before the body may unlink the entry. */
    method Visit(curr: Glue<T>, keep: T -> bool, ghost kept: seq<T>, ghost rest: seq<T>)
      returns (next: Glue?<T>, ghost kept': seq<T>)
      requires At(curr, kept, rest) && rest != []
      modifies this, repr`left, repr`right
      ensures kept' == kept + if keep(rest[0]) then [rest[0]] else []
      ensures At(next, kept', rest[1..]) && repr == old(repr)
    {
      NextOf(kept, rest);
      next := curr.right;
      if !keep(curr.data) {
        Unlink(curr, |kept| + 1);
        kept' := kept;
      } else {
        kept' := kept + [rest[0]];
      }
    }

    /**
     * The deletion-safe loop with a body that unlinks some of the entries it is given.
     * The body runs on every entry the list held at the start, once each, in order,
     * and what is left is what the body kept.
     */
    method RetainIf(keep: T -> bool) returns (ghost visited: seq<T>)
      requires Valid()
      modifies this, repr`left, repr`right
      ensures Valid() && repr == old(repr)
      ensures visited == old(entries)
      ensures entries == Filter(old(entries), keep)
    {
      ghost var rest, kept := entries, [];
      visited := [];
      var curr := head.right;
      while curr != null
        invariant At(curr, kept, rest) && repr == old(repr)
        invariant visited + rest == old(entries) && kept == Filter(visited, keep)
        decreases |rest|
      {
        FilterRound(visited, rest, keep);
        curr, kept := Visit(curr, keep, kept, rest);
        visited, rest := visited + [rest[0]], rest[1..];
      }
    }

    /** `delete_glthread_list`: every entry is unlinked. */
    method Clear()
      requires Valid()
      modifies this, repr`left, repr`right
      ensures Valid() && entries == [] && repr == old(repr)
    {
      FilterNone(entries, d => false);
      ghost var visited := RetainIf(d => false);
    }
  }
}
