/**
 The doubly linked list of lib/libds/list.c, with insertion in order of integer sort keys.
 */
module SortedList {
  import opened Common

  class ListNode {
    const Key: int
    const SortKey: int
    var Link: ListNode?
    var Prev: ListNode?

    constructor (key: int, sortKey: int)
      ensures Key == key && SortKey == sortKey && Link == null && Prev == null
    {
      Key, SortKey, Link, Prev := key, sortKey, null, null;
    }
  }

  function NodeAt(s: seq<ListNode>, i: int): ListNode? {
    if 0 <= i < |s| then s[i] else null
  }

  /** Link and Prev of each node lead to its neighbours, and to nothing at the ends. */
  ghost predicate Linked(s: seq<ListNode>)
    reads s
  {
    forall i {:trigger s[i].Link} {:trigger s[i].Prev} :: 0 <= i < |s| ==>
      s[i].Link == NodeAt(s, i + 1) && s[i].Prev == NodeAt(s, i - 1)
  }

  // ---------- What the operations do to the sequence of nodes ----------

  /** dssortkey for integer keys. */
  function Dssortkey(key1: int, key2: int): int {
    if key1 == key2 then 0 else if key1 > key2 then 1 else -1
  }

  /** The first node whose sort key is not below the given one. */
  function Place(s: seq<ListNode>, sortKey: int): (p: nat)
    ensures p <= |s|
    ensures forall i :: 0 <= i < p ==> s[i].SortKey < sortKey
    ensures p < |s| ==> sortKey <= s[p].SortKey
  {
    if s == [] || Dssortkey(sortKey, s[0].SortKey) != 1 then 0 else Place(s[1..], sortKey) + 1
  }

  function InsertedAt(s: seq<ListNode>, p: nat, node: ListNode): (t: seq<ListNode>)
    requires p <= |s|
    ensures |t| == |s| + 1 && t[p] == node
    ensures forall i :: 0 <= i < p ==> t[i] == s[i]
    ensures forall i :: p < i < |t| ==> t[i] == s[i - 1]
  {
    s[..p] + [node] + s[p..]
  }

  function Inserted(s: seq<ListNode>, node: ListNode): seq<ListNode> {
    InsertedAt(s, Place(s, node.SortKey), node)
  }

  function Without(s: seq<ListNode>, i: nat): (t: seq<ListNode>)
    requires i < |s|
    ensures |t| == |s| - 1
    ensures forall j :: 0 <= j < i ==> t[j] == s[j]
    ensures forall j :: i <= j < |t| ==> t[j] == s[j + 1]
  {
    s[..i] + s[i + 1..]
  }

  lemma InjectiveWithout(s: seq<ListNode>, i: nat)
    requires i < |s| && Injective(s)
    ensures Injective(Without(s, i))
  {
    hide Without;
  }

  /** The n-th of the nodes with the given key, or |s|. */
  function NthMatch(s: seq<ListNode>, key: int, n: int): (i: nat)
    ensures i <= |s| && (i < |s| ==> s[i].Key == key)
  {
    if s == [] then 0
    else if s[0].Key == key then (if n == 0 then 0 else NthMatch(s[1..], key, n - 1) + 1)
    else NthMatch(s[1..], key, n) + 1
  }

  // ---------- Sorted lists ----------

  predicate Ordered(s: seq<ListNode>) {
    forall i, j :: 0 <= i < j < |s| ==> s[i].SortKey <= s[j].SortKey
  }

  /** The list after the nodes have been inserted one by one. */
  function AllInserted(nodes: seq<ListNode>): seq<ListNode>
    decreases |nodes|
  {
    if nodes == [] then [] else Inserted(AllInserted(nodes[..|nodes| - 1]), nodes[|nodes| - 1])
  }

  /** The nodes with a sort key, in their order. */
  function OfSortKey(s: seq<ListNode>, sortKey: int): seq<ListNode> {
    if s == [] then []
    else (if s[0].SortKey == sortKey then [s[0]] else []) + OfSortKey(s[1..], sortKey)
  }

  lemma {:induction false} OfSortKeyJoins(s: seq<ListNode>, t: seq<ListNode>, sortKey: int)
    ensures OfSortKey(s + t, sortKey) == OfSortKey(s, sortKey) + OfSortKey(t, sortKey)
    decreases |s|
  {
    if s == [] {
      assert s + t == t;
    } else {
      var rest := s[1..];
      assert (s + t)[0] == s[0] && (s + t)[1..] == rest + t;
      OfSortKeyJoins(rest, t, sortKey);
      var first := if s[0].SortKey == sortKey then [s[0]] else [];
      assert OfSortKey(s + t, sortKey) == first + OfSortKey(rest + t, sortKey);
      assert first + (OfSortKey(rest, sortKey) + OfSortKey(t, sortKey)) ==
             (first + OfSortKey(rest, sortKey)) + OfSortKey(t, sortKey);
    }
  }

  lemma {:induction false} OfSortKeyNone(s: seq<ListNode>, sortKey: int)
    requires forall i :: 0 <= i < |s| ==> s[i].SortKey != sortKey
    ensures OfSortKey(s, sortKey) == []
    decreases |s|
  {
    if s != [] {
      OfSortKeyNone(s[1..], sortKey);
    }
  }

  lemma InsertedKeepsOrder(s: seq<ListNode>, node: ListNode)
    requires Ordered(s)
    ensures Ordered(Inserted(s, node))
  {
    var p, t := Place(s, node.SortKey), Inserted(s, node);
    forall i, j | 0 <= i < j < |t| ensures t[i].SortKey <= t[j].SortKey {
      if j < p {
        assert t[i] == s[i] && t[j] == s[j];
      } else if i > p {
        assert t[i] == s[i - 1] && t[j] == s[j - 1];
      } else {
        assert i < p ==> t[i] == s[i];
        assert j > p ==> t[j] == s[j - 1] && s[p].SortKey <= s[j - 1].SortKey;
      }
    }
  }

  lemma InsertedAddsOne(s: seq<ListNode>, node: ListNode)
    ensures multiset(Inserted(s, node)) == multiset(s) + multiset{node}
  {
    var p := Place(s, node.SortKey);
    var front, back := s[..p], s[p..];
    assert s == front + back;
    hide Place;
    assert multiset(front + [node] + back) == multiset(front) + multiset{node} + multiset(back);
  }

  /** A node goes before the nodes with its key and leaves their order as it is. */
  lemma InsertedComesFirst(s: seq<ListNode>, node: ListNode, sortKey: int)
    ensures OfSortKey(Inserted(s, node), sortKey) ==
            (if node.SortKey == sortKey then [node] else []) + OfSortKey(s, sortKey)
  {
    var p := Place(s, node.SortKey);
    var front, back := s[..p], s[p..];
    assert s == front + back;
    OfSortKeyJoins(front, back, sortKey);
    OfSortKeyJoins(front + [node], back, sortKey);
    OfSortKeyAppend(front, node, sortKey);
    if node.SortKey == sortKey {
      OfSortKeyNone(front, sortKey);
    }
    hide Place;
    hide OfSortKey;
    assert [] + OfSortKey(s, sortKey) == OfSortKey(s, sortKey);
  }

  lemma OfSortKeyAppend(s: seq<ListNode>, node: ListNode, sortKey: int)
    ensures OfSortKey(s + [node], sortKey) ==
            if node.SortKey == sortKey then OfSortKey(s, sortKey) + [node] else OfSortKey(s, sortKey)
  {
    OfSortKeyJoins(s, [node], sortKey);
    assert [node][1..] == [] && OfSortKey([], sortKey) == [];
    assert OfSortKey([node], sortKey) == if node.SortKey == sortKey then [node] else [];
  }

  /** Any run of insertions leaves the nodes in order, and all of them. */
  lemma {:induction false} InsertionsSort(nodes: seq<ListNode>)
    ensures Ordered(AllInserted(nodes)) && multiset(AllInserted(nodes)) == multiset(nodes)
    decreases |nodes|
  {
    hide Ordered;
    hide Inserted;
    if nodes == [] {
      NothingIsOrdered();
    } else {
      var rest, node := nodes[..|nodes| - 1], nodes[|nodes| - 1];
      InsertionsSort(rest);
      InsertedKeepsOrder(AllInserted(rest), node);
      InsertedAddsOne(AllInserted(rest), node);
      assert nodes == rest + [node];
    }
  }

  lemma NothingIsOrdered()
    ensures Ordered([])
  {
  }

  /** Nodes with equal keys come out with the latest first. */
  lemma {:induction false} InsertionsReverseEquals(nodes: seq<ListNode>, sortKey: int)
    ensures OfSortKey(AllInserted(nodes), sortKey) == Reversed(OfSortKey(nodes, sortKey))
    decreases |nodes|
  {
    hide Inserted;
    if nodes != [] {
      var rest, node := nodes[..|nodes| - 1], nodes[|nodes| - 1];
      InsertionsReverseEquals(rest, sortKey);
      InsertedComesFirst(AllInserted(rest), node, sortKey);
      assert nodes == rest + [node];
      OfSortKeyAppend(rest, node, sortKey);
      ReversedAppend(OfSortKey(rest, sortKey), node);
      hide OfSortKey;
      hide Reversed;
    }
  }

  /** Unlinking undoes an insertion. */
  lemma InsertThenUnlink(s: seq<ListNode>, node: ListNode)
    ensures Without(Inserted(s, node), Place(s, node.SortKey)) == s
  {
    var p := Place(s, node.SortKey);
    assert s == s[..p] + s[p..];
  }

  function Matches(s: seq<ListNode>, key: int): nat {
    if s == [] then 0 else (if s[0].Key == key then 1 else 0) + Matches(s[1..], key)
  }

  /** The lookup finds the match with n matches before it, or there are no more than n. */
  lemma {:induction false} NthMatchExactly(s: seq<ListNode>, key: int, n: int)
    ensures var i := NthMatch(s, key, n);
      && (i < |s| <==> 0 <= n < Matches(s, key))
      && (i < |s| ==> s[i].Key == key && Matches(s[..i], key) == n)
    decreases |s|
  {
    if s != [] {
      var m := if s[0].Key == key then n - 1 else n;
      NthMatchExactly(s[1..], key, m);
      var i := NthMatch(s[1..], key, m);
      if i < |s| - 1 {
        assert s[..i + 1][1..] == s[1..][..i];
      }
    }
  }

  class List {
    const SortOnInsert: bool
    var Headp: ListNode?
    var Tailp: ListNode?
    var Length: nat

    ghost var Nodes: seq<ListNode>

    ghost predicate Valid()
      reads this, Nodes
    {
      Anchored() && Injective(Nodes) && Linked(Nodes)
    }

    ghost predicate Anchored()
      reads this
    {
      Headp == NodeAt(Nodes, 0) && Tailp == NodeAt(Nodes, |Nodes| - 1) && Length == |Nodes|
    }

    constructor (sortOnInsert: bool)
      ensures Valid() && Nodes == [] && SortOnInsert == sortOnInsert
    {
      SortOnInsert, Headp, Tailp, Length, Nodes := sortOnInsert, null, null, 0, [];
    }

    /** The search of the sorted insertion. */
    method FindPlace(sortKey: int) returns (lNode: ListNode?, ghost p: nat)
      requires Valid()
      ensures p == Place(Nodes, sortKey) && lNode == NodeAt(Nodes, Place(Nodes, sortKey))
    {
      lNode, p := Headp, 0;
      while lNode != null && Dssortkey(sortKey, lNode.SortKey) == 1
        invariant 0 <= p <= |Nodes| && lNode == NodeAt(Nodes, p)
        invariant Place(Nodes, sortKey) == p + Place(Nodes[p..], sortKey)
        decreases |Nodes| - p
      {
        assert Nodes[p..][1..] == Nodes[p + 1..];
        lNode, p := lNode.Link, p + 1;
      }
    }

    /**
     ListInsert.  A sorted insertion at the front never writes the node's own Prev: the list
     is sound afterwards exactly when that was null or the node went elsewhere.
     */
    method ListInsert(node: ListNode)
      requires Valid() && node !in Nodes
      modifies this, node, Nodes
      ensures Nodes == if SortOnInsert then Inserted(old(Nodes), node) else [node] + old(Nodes)
      ensures Valid() <==> !SortOnInsert || Place(old(Nodes), node.SortKey) > 0 || old(node.Prev) == null
    {
      if SortOnInsert {
        InsertSorted(node);
      } else {
        if Headp == null || Tailp == null {
          Tailp, Headp := node, node;
          node.Link := null;
        } else {
          node.Link := Headp;
          Headp.Prev := node;
          Headp := node;
        }
        node.Prev := null;
        Length := Length + 1;
        Nodes := [node] + Nodes;
      }
    }

    method InsertSorted(node: ListNode)
      requires Valid() && node !in Nodes
      modifies this, node, Nodes
      ensures Nodes == Inserted(old(Nodes), node)
      ensures Valid() <==> Place(old(Nodes), node.SortKey) > 0 || old(node.Prev) == null
    {
      if Headp == null || Tailp == null {
        Tailp, Headp := node, node;
        node.Link := null;
        Length := Length + 1;
        Nodes := [node];
      } else {
        var lNode;
        ghost var p;
        lNode, p := FindPlace(node.SortKey);
        if lNode != null {
          InsertBefore(lNode, p, node);
        } else {
          Append(node);
        }
      }
    }

    method InsertBefore(lNode: ListNode, ghost p: nat, node: ListNode)
      requires Valid() && node !in Nodes && p < |Nodes| && lNode == Nodes[p]
      modifies this, node, Nodes
      ensures Nodes == InsertedAt(old(Nodes), p, node)
      ensures Valid() <==> p > 0 || old(node.Prev) == null
    {
      assert lNode.Prev == NodeAt(Nodes, p - 1);
      if lNode.Prev == null {
        InsertFront(lNode, node);
      } else {
        InsertBetween(lNode, p, node);
      }
    }

    method InsertFront(lNode: ListNode, node: ListNode)
      requires Valid() && node !in Nodes && Nodes != [] && lNode == Nodes[0]
      modifies this, node, Nodes
      ensures Nodes == InsertedAt(old(Nodes), 0, node)
      ensures Valid() <==> old(node.Prev) == null
    {
      hide InsertedAt;
      node.Link := lNode;
      lNode.Prev := node;
      Headp := node;
      Length := Length + 1;
      Nodes := InsertedAt(Nodes, 0, node);
    }

    method InsertBetween(lNode: ListNode, ghost p: nat, node: ListNode)
      requires Valid() && node !in Nodes && 0 < p < |Nodes| && lNode == Nodes[p]
      modifies this, node, Nodes
      ensures Valid() && Nodes == InsertedAt(old(Nodes), p, node)
    {
      hide InsertedAt;
      assert lNode.Prev == Nodes[p - 1];
      lNode.Prev.Link := node;
      node.Prev := lNode.Prev;
      lNode.Prev := node;
      node.Link := lNode;
      Length := Length + 1;
      Nodes := InsertedAt(Nodes, p, node);
    }

    /** The last node gets a successor. */
    method Append(node: ListNode)
      requires Valid() && node !in Nodes && Nodes != []
      modifies this, node, Nodes
      ensures Valid() && Nodes == old(Nodes) + [node]
    {
      Tailp.Link := node;
      node.Prev := Tailp;
      Tailp := node;
      node.Link := null;
      Length := Length + 1;
      Nodes := Nodes + [node];
    }

    /** ListAppend, which a sorted list turns into an insertion. */
    method ListAppend(node: ListNode)
      requires Valid() && node !in Nodes
      modifies this, node, Nodes
      ensures Nodes == if SortOnInsert then Inserted(old(Nodes), node) else old(Nodes) + [node]
      ensures Valid() <==> !SortOnInsert || Place(old(Nodes), node.SortKey) > 0 || old(node.Prev) == null
    {
      if SortOnInsert {
        ListInsert(node);
      } else if Headp == null || Tailp == null {
        node.Prev := null;
        Tailp, Headp := node, node;
        node.Link := null;
        Length := Length + 1;
        Nodes := [node];
      } else {
        Append(node);
      }
    }

    /** ListPopFront. */
    method ListPopFront() returns (current: ListNode?)
      requires Valid()
      modifies this, Nodes
      ensures Valid() && current == NodeAt(old(Nodes), 0)
      ensures Nodes == if old(Nodes) == [] then [] else old(Nodes)[1..]
      ensures current != null ==> current.Link == null && current.Prev == null
    {
      if Headp == null {
        return null;
      }
      current := Headp;
      Headp := current.Link;
      if Headp != null {
        Headp.Prev := null;
      }
      if Tailp == current {
        Headp, Tailp := null, null;
      }
      current.Link := null;
      current.Prev := null;
      Length := Length - 1;
      Nodes := Nodes[1..];
    }

    /** ListGetNodeByKey. */
    method ListGetNodeByKey(key: int, n: int) returns (found: ListNode?)
      requires Valid()
      ensures found == NodeAt(Nodes, NthMatch(Nodes, key, n))
    {
      if Headp == null || Length == 0 {
        return null;
      }
      var it, counter := Headp, n;
      ghost var i := 0;
      while it != null
        invariant 0 <= i <= |Nodes| && it == NodeAt(Nodes, i)
        invariant NthMatch(Nodes, key, n) == i + NthMatch(Nodes[i..], key, counter)
        decreases |Nodes| - i
      {
        assert Nodes[i..][1..] == Nodes[i + 1..];
        if it.Key == key {
          if counter == 0 {
            return it;
          }
          counter := counter - 1;
        }
        it, i := it.Link, i + 1;
      }
      found := null;
    }

    /** ListUnlinkNode on a node of the list: it returns the node that followed. */
    method ListUnlinkNode(node: ListNode, ghost i: nat) returns (next: ListNode?)
      requires Valid() && i < |Nodes| && node == Nodes[i]
      modifies this, Nodes
      ensures Valid() && Nodes == Without(old(Nodes), i) && next == NodeAt(old(Nodes), i + 1)
      ensures node.Link == old(node.Link) && node.Prev == old(node.Prev)
    {
      assert node.Link == NodeAt(Nodes, i + 1) && node.Prev == NodeAt(Nodes, i - 1);
      if node.Prev == null {
        UnlinkFirst(node);
      } else {
        UnlinkLater(node, i);
      }
      next := if node.Prev == null then Headp else node.Link;
    }

    method UnlinkFirst(node: ListNode)
      requires Valid() && Nodes != [] && node == Nodes[0]
      modifies this, Nodes
      ensures Valid() && Nodes == Without(old(Nodes), 0)
      ensures node.Link == old(node.Link) && node.Prev == old(node.Prev)
    {
      hide Without;
      if node.Link == null {
        if Headp == node {
          Headp, Tailp := null, null;
          Length := Length - 1;
        }
      } else {
        if Headp == node {
          Headp := node.Link;
          Headp.Prev := null;
          Length := Length - 1;
        }
      }
      Nodes := Without(Nodes, 0);
    }

    method UnlinkLater(node: ListNode, ghost i: nat)
      requires Valid() && 0 < i < |Nodes| && node == Nodes[i]
      modifies this, Nodes
      ensures Valid() && Nodes == Without(old(Nodes), i)
      ensures node.Link == old(node.Link) && node.Prev == old(node.Prev)
    {
      assert node.Link == NodeAt(Nodes, i + 1) && node.Prev == Nodes[i - 1];
      if node.Link == null {
        hide Without;
        if Tailp == node {
          Tailp := node.Prev;
          Tailp.Link := null;
          Length := Length - 1;
        }
        Nodes := Without(Nodes, i);
      } else {
        Skip(node, i);
      }
    }

    /** The neighbours of a node in the middle are linked to each other. */
    method Skip(node: ListNode, ghost i: nat)
      requires Valid() && 0 < i < |Nodes| - 1 && node == Nodes[i]
      modifies this, Nodes
      ensures Valid() && Nodes == Without(old(Nodes), i)
      ensures node.Link == old(node.Link) && node.Prev == old(node.Prev)
    {
      hide Without;
      ghost var nodes := Nodes;
      assert node.Link == nodes[i + 1] && node.Prev == nodes[i - 1];
      var prev := node.Prev;
      prev.Link := node.Link;
      prev.Link.Prev := prev;
      Length := Length - 1;
      Nodes := Without(Nodes, i);
      assert Anchored();
      hide List.Anchored;
      forall j | 0 <= j < |Nodes| ensures Nodes[j].Link == NodeAt(Nodes, j + 1) && Nodes[j].Prev == NodeAt(Nodes, j - 1) {
        var k := if j < i then j else j + 1;
        assert Nodes[j] == nodes[k];
        assert old(nodes[k].Link) == NodeAt(nodes, k + 1) && old(nodes[k].Prev) == NodeAt(nodes, k - 1);
        assert k != i - 1 ==> nodes[k] != nodes[i - 1];
        assert k != i + 1 ==> nodes[k] != nodes[i + 1];
      }
      assert Linked(Nodes);
      hide Linked;
      InjectiveWithout(nodes, i);
      hide Injective;
    }

    /** ListRemoveByKey: the first node with the key goes, if there is one. */
    method ListRemoveByKey(key: int) returns (success: bool)
      requires Valid()
      modifies this, Nodes
      ensures Valid()
      ensures var i := NthMatch(old(Nodes), key, 0);
        && success == (i < |old(Nodes)|) && Nodes == (if success then Without(old(Nodes), i) else old(Nodes))
        && (success ==> old(Nodes)[i].Link == null && old(Nodes)[i].Prev == null)
    {
      var node := ListGetNodeByKey(key, 0);
      if node == null {
        return false;
      }
      var _ := ListUnlinkNode(node, NthMatch(Nodes, key, 0));
      node.Link := null;
      node.Prev := null;
      success := true;
    }
  }

  /** A run that breaks a sorted list: a node that was unlinked from behind another one still
      has its Prev, and goes to the front of the list when it is inserted again. */
  method StaleNodeBreaksList() returns (list: List)
    ensures fresh(list) && !list.Valid()
  {
    list := new List(true);
    var first := new ListNode(1, 1);
    var second := new ListNode(2, 2);
    list.ListInsert(first);
    list.ListInsert(second);
    assert list.Nodes == [first, second];
    assert second.Prev == NodeAt(list.Nodes, 0);
    var _ := list.ListUnlinkNode(second, 1);
    var _ := list.ListPopFront();
    list.ListInsert(second);
  }
}
