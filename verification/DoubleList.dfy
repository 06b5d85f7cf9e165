/** The intrusive doubly linked list (antlib/commandlib/double_list.h): nodes live inside the entries they link, and
    a list owns nothing but its two end pointers. The ghost sequence nodes is the list a reader has in mind. */
module DoubleList {
  import opened Collections
  class Node {
    var next: Node?
    var prev: Node?
    /** The entry the node is embedded in; the source finds it again by casting the node's address. */
    const owner: nat

    constructor (owner: nat)
      ensures this.owner == owner && next == null && prev == null
    {
      this.owner := owner;
      next, prev := null, null;
    }
  }

  ghost function At(s: seq<Node>, k: int): Node? {
    if 0 <= k < |s| then s[k] else null
  }

  /** Both pointers of the k-th node: next and prev are mutually inverse along the sequence. */
  ghost predicate Linked(s: seq<Node>, k: int)
    requires 0 <= k < |s|
    reads s
  {
    s[k].next == At(s, k + 1) && s[k].prev == At(s, k - 1)
  }

  ghost predicate AllLinked(s: seq<Node>)
    reads s
  {
    forall k :: 0 <= k < |s| ==> Linked(s, k)
  }

  ghost function IndexOf(s: seq<Node>, x: Node): (i: nat)
    requires x in s
    ensures i < |s| && s[i] == x
  {
    if s[0] == x then 0 else 1 + IndexOf(s[1..], x)
  }

  /** The position behind a node, and the one before it; null stands for the end of the list nearest to it. */
  ghost function Behind(s: seq<Node>, prev: Node?): (i: nat)
    requires prev != null ==> prev in s
    ensures i <= |s|
  {
    if prev == null then 0 else IndexOf(s, prev) + 1
  }

  ghost function Before(s: seq<Node>, next: Node?): (i: nat)
    requires next != null ==> next in s
    ensures i <= |s|
  {
    if next == null then |s| else IndexOf(s, next)
  }

  ghost function Without(s: seq<Node>, i: int): seq<Node>
    requires 0 <= i < |s|
  {
    s[..i] + s[i + 1..]
  }

  ghost function Inserted(s: seq<Node>, i: int, x: Node): seq<Node>
    requires 0 <= i <= |s|
  {
    s[..i] + [x] + s[i..]
  }

  /** The last node of a list is found at the last position. */
  lemma LastIndex(s: seq<Node>, x: Node)
    requires Distinct(s) && x in s && At(s, |s| - 1) == x
    ensures IndexOf(s, x) == |s| - 1
  {
  }

  lemma InsertedAtEnds(s: seq<Node>, x: Node)
    ensures Inserted(s, 0, x) == [x] + s && Inserted(s, |s|, x) == s + [x]
  {
  }

  /** What the four links around position k say, and that no node occurs elsewhere. */
  lemma Around(s: seq<Node>, k: int)
    requires 0 <= k < |s| && AllLinked(s) && Distinct(s)
    ensures s[k].next == At(s, k + 1) && s[k].prev == At(s, k - 1)
    ensures s[k].next != null ==> s[k].next.prev == s[k] && s[k].next != s[k]
    ensures s[k].prev != null ==> s[k].prev.next == s[k] && s[k].prev != s[k]
    ensures s[k].prev != null && s[k].next != null ==> s[k].prev != s[k].next
  {
    assert Linked(s, k);
    if k + 1 < |s| { assert Linked(s, k + 1); }
    if k > 0 { assert Linked(s, k - 1); }
  }

  /** After the four assignments of a middle insertion, every node of the longer sequence is linked. */
  lemma InsertLinks(s: seq<Node>, i: int, node: Node)
    requires 0 < i < |s| && Distinct(s) && node !in s
    requires forall k {:trigger s[k].next} :: 0 <= k < |s| ==> s[k].next == if k == i - 1 then node else At(s, k + 1)
    requires forall k {:trigger s[k].prev} :: 0 <= k < |s| ==> s[k].prev == if k == i then node else At(s, k - 1)
    requires node.prev == s[i - 1] && node.next == s[i]
    ensures AllLinked(Inserted(s, i, node)) && Distinct(Inserted(s, i, node))
  {
    var t := Inserted(s, i, node);
    forall k | 0 <= k < |t|
      ensures Linked(t, k)
    {
      if k < i {
        assert t[k] == s[k];
      } else if k > i {
        assert t[k] == s[k - 1];
      }
    }
  }

  lemma LinksOf(s: seq<Node>)
    requires AllLinked(s)
    ensures forall k {:trigger s[k].next} :: 0 <= k < |s| ==> s[k].next == At(s, k + 1)
    ensures forall k {:trigger s[k].prev} :: 0 <= k < |s| ==> s[k].prev == At(s, k - 1)
  {
    forall k | 0 <= k < |s|
      ensures s[k].next == At(s, k + 1) && s[k].prev == At(s, k - 1)
    {
      assert Linked(s, k);
    }
  }

  /** After a removal, likewise. */
  lemma RemoveLinks(s: seq<Node>, i: int)
    requires 0 <= i < |s| && Distinct(s)
    requires forall k {:trigger s[k].next} :: 0 <= k < |s| && k != i ==>
               s[k].next == At(s, if k == i - 1 then i + 1 else k + 1)
    requires forall k {:trigger s[k].prev} :: 0 <= k < |s| && k != i ==>
               s[k].prev == At(s, if k == i + 1 then i - 1 else k - 1)
    ensures AllLinked(Without(s, i)) && Distinct(Without(s, i))
  {
    var t := Without(s, i);
    forall k | 0 <= k < |t|
      ensures Linked(t, k)
    {
      assert t[k] == if k < i then s[k] else s[k + 1];
    }
  }

  class DoubleList {
    var head: Node?
    var tail: Node?
    ghost var nodes: seq<Node>

    ghost predicate Valid()
      reads this, nodes
    {
      && head == At(nodes, 0) && tail == At(nodes, |nodes| - 1)
      && Distinct(nodes) && AllLinked(nodes)
    }

    constructor ()
      ensures Valid() && nodes == [] && head == null && tail == null
    {
      head, tail, nodes := null, null, [];
    }

    method AddHead(node: Node)
      requires Valid() && node !in nodes
      modifies this, node, nodes
      ensures Valid() && nodes == [node] + old(nodes)
    {
      ghost var s := nodes;
      if head != null { assert Linked(s, 0); }
      node.prev := null;
      node.next := head;
      if head != null {
        head.prev := node;
      } else {
        assert tail == null;
        tail := node;
      }
      head := node;
      nodes := [node] + nodes;
      forall k | 0 <= k < |nodes|
        ensures Linked(nodes, k)
      {
        if k > 0 { assert old(Linked(s, k - 1)) && nodes[k] == s[k - 1]; }
      }
    }

    method AddTail(node: Node)
      requires Valid() && node !in nodes
      modifies this, node, nodes
      ensures Valid() && nodes == old(nodes) + [node]
    {
      ghost var s := nodes;
      node.next := null;
      node.prev := tail;
      if tail != null {
        tail.next := node;
      } else {
        assert head == null;
        head := node;
      }
      tail := node;
      nodes := nodes + [node];
      forall k | 0 <= k < |nodes|
        ensures Linked(nodes, k)
      {
        if k < |s| { assert old(Linked(s, k)) && nodes[k] == s[k]; }
      }
    }

    /** Insert behind prev, at the front when prev is null. */
    method AddBack(prev: Node?, node: Node)
      requires Valid() && node !in nodes && (prev != null ==> prev in nodes)
      modifies this, node, nodes
      ensures Valid()
      ensures nodes == Inserted(old(nodes), Behind(old(nodes), prev), node)
    {
      InsertedAtEnds(nodes, node);
      if prev == null {
        AddHead(node);
      } else if prev == tail {
        LastIndex(nodes, prev);
        hide *;
        AddTail(node);
      } else {
        ghost var s := nodes;
        ghost var i := IndexOf(s, prev);
        Around(s, i);
        LinksOf(s);
        hide AllLinked, IndexOf;
        node.prev := prev;
        node.next := prev.next;
        prev.next.prev := node;
        prev.next := node;
        nodes := Inserted(s, i + 1, node);
        InsertLinks(s, i + 1, node);
      }
    }

    /** Insert before next, at the end when next is null. */
    method AddFront(next: Node?, node: Node)
      requires Valid() && node !in nodes && (next != null ==> next in nodes)
      modifies this, node, nodes
      ensures Valid()
      ensures nodes == Inserted(old(nodes), Before(old(nodes), next), node)
    {
      if next == null {
        AddTail(node);
      } else if next == head {
        AddHead(node);
      } else {
        ghost var s := nodes;
        ghost var i := IndexOf(s, next);
        Around(s, i);
        LinksOf(s);
        hide AllLinked, IndexOf;
        node.next := next;
        node.prev := next.prev;
        next.prev.next := node;
        next.prev := node;
        nodes := Inserted(s, i, node);
        InsertLinks(s, i, node);
      }
    }

    method Remove(node: Node)
      requires Valid() && node in nodes
      modifies this, nodes
      ensures Valid() && nodes == Without(old(nodes), old(IndexOf(nodes, node)))
      ensures node.next == old(node.next) && node.prev == old(node.prev)
    {
      ghost var s := nodes;
      ghost var i := IndexOf(s, node);
      Around(s, i);
      LinksOf(s);
      hide AllLinked, IndexOf;
      if node.next != null {
        assert node.next.prev == node;
        node.next.prev := node.prev;
      } else {
        assert tail == node;
        tail := node.prev;
      }
      if node.prev != null {
        assert node.prev.next == node;
        node.prev.next := node.next;
      } else {
        assert head == node;
        head := node.next;
      }
      nodes := Without(s, i);
      RemoveLinks(s, i);
    }

    method Pop() returns (node: Node?)
      requires Valid()
      modifies this, nodes
      ensures Valid()
      ensures node == At(old(nodes), 0)
      ensures nodes == if node == null then old(nodes) else old(nodes)[1..]
    {
      node := head;
      if node != null {
        assert IndexOf(nodes, node) == 0;
        Remove(node);
      }
    }

    method Push(node: Node)
      requires Valid() && node !in nodes
      modifies this, node, nodes
      ensures Valid() && nodes == old(nodes) + [node]
    {
      AddTail(node);
    }
  }

  lemma ListFacts(l: DoubleList)
    requires l.Valid()
    ensures Distinct(l.nodes) && l.head == At(l.nodes, 0)
    ensures forall k {:trigger l.nodes[k].next} :: 0 <= k < |l.nodes| ==> l.nodes[k].next == At(l.nodes, k + 1)
  {
    LinksOf(l.nodes);
  }

  /** Reading a list from either end gives the same sequence: from k, following next m times is position k + m, and
      prev undoes it. */
  ghost function Walk(s: set<Node>, n: Node?, m: nat): Node?
    reads s
  {
    if m == 0 || n == null || n !in s then n else Walk(s, n.next, m - 1)
  }

  ghost function WalkBack(s: set<Node>, n: Node?, m: nat): Node?
    reads s
  {
    if m == 0 || n == null || n !in s then n else WalkBack(s, n.prev, m - 1)
  }

  lemma {:induction false} WalkReaches(l: DoubleList, k: nat, m: nat)
    requires l.Valid() && k < |l.nodes|
    ensures var s := set n | n in l.nodes;
            Walk(s, l.nodes[k], m) == At(l.nodes, k + m) && WalkBack(s, l.nodes[k], m) == At(l.nodes, k - m)
    decreases m
  {
    assert Linked(l.nodes, k);
    if m > 0 {
      if k + 1 < |l.nodes| { WalkReaches(l, k + 1, m - 1); }
      if k > 0 { WalkReaches(l, k - 1, m - 1); }
    }
  }
}
