/**
 The intrusive doubly linked list of libutil/src/collections/linked_list.rs.  Every operation is
 proved to do to the links what it should do to the sequence of nodes.
 */
module LinkedLists {
  import opened Wrappers

  /** A `ListNode`, with something for the owner of the list to look at. */
  class Node {
    var prev: Node?
    var next: Node?
    const key: int

    constructor (key: int) {
      this.key := key;
    }
  }

  ghost predicate Distinct(s: seq<Node>) {
    forall i, j :: 0 <= i < j < |s| ==> s[i] != s[j]
  }

  ghost function At(s: seq<Node>, i: int): Node? {
    if 0 <= i < |s| then s[i] else null
  }

  /** The links of the nodes are those of the sequence, in both directions. */
  ghost predicate Linked(s: seq<Node>)
    reads s
  {
    && (forall i {:trigger s[i].prev} :: 0 <= i < |s| ==> s[i].prev == At(s, i - 1))
    && (forall i {:trigger s[i].next} :: 0 <= i < |s| ==> s[i].next == At(s, i + 1))
  }

  lemma DistinctWithout(s: seq<Node>, i: nat)
    requires i < |s| && Distinct(s)
    ensures Distinct(s[..i] + s[i + 1..])
  {
    var t := s[..i] + s[i + 1..];
    assert forall k {:trigger t[k]} :: 0 <= k < |t| ==> t[k] == s[if k < i then k else k + 1];
  }

  lemma DistinctWith(s: seq<Node>, i: nat, n: Node)
    requires i <= |s| && Distinct(s) && n !in s
    ensures Distinct(s[..i] + [n] + s[i..])
  {
    var t := s[..i] + [n] + s[i..];
    assert forall k {:trigger t[k]} :: 0 <= k < |t| && k != i ==> t[k] == s[if k < i then k else k - 1];
  }

  lemma LinksOf(s: seq<Node>, i: nat)
    requires Linked(s) && i < |s|
    ensures s[i].prev == At(s, i - 1) && s[i].next == At(s, i + 1)
  {
  }

  /** Without node `i`, whose neighbours are linked to each other, the links are right again. */
  lemma LinkedWithout(s: seq<Node>, i: nat)
    requires i < |s|
    requires forall k {:trigger s[k].prev} :: 0 <= k < |s| ==>
      s[k].prev == if k == i + 1 then At(s, i - 1) else At(s, k - 1)
    requires forall k {:trigger s[k].next} :: 0 <= k < |s| ==>
      s[k].next == if k == i - 1 then At(s, i + 1) else At(s, k + 1)
    ensures Linked(s[..i] + s[i + 1..])
  {
    var t := s[..i] + s[i + 1..];
    forall k | 0 <= k < |t| ensures t[k].prev == At(t, k - 1) && t[k].next == At(t, k + 1) {
      assert t[k] == s[if k < i then k else k + 1];
    }
  }

  /** With a node more before node `i`, linked to and from its neighbours. */
  lemma LinkedWith(s: seq<Node>, i: nat, n: Node)
    requires i <= |s| && n.prev == At(s, i - 1) && n.next == At(s, i)
    requires forall k {:trigger s[k].prev} :: 0 <= k < |s| ==> s[k].prev == if k == i then n else At(s, k - 1)
    requires forall k {:trigger s[k].next} :: 0 <= k < |s| ==> s[k].next == if k == i - 1 then n else At(s, k + 1)
    ensures Linked(s[..i] + [n] + s[i..])
  {
    var t := s[..i] + [n] + s[i..];
    forall k | 0 <= k < |t| ensures t[k].prev == At(t, k - 1) && t[k].next == At(t, k + 1) {
      assert k != i ==> t[k] == s[if k < i then k else k - 1];
    }
  }

  class LinkedList {
    var start: Node?
    var end: Node?
    var len: nat
    ghost var nodes: seq<Node>

    /** When the list is empty, `start` and `end` may point to a node that was taken out last. */
    ghost predicate Valid()
      reads this, nodes
    {
      && len == |nodes| && Distinct(nodes) && Linked(nodes)
      && (len > 0 ==> start == nodes[0] && end == nodes[len - 1])
    }

    constructor ()
      ensures Valid() && nodes == []
    {
      start, end, len := null, null, 0;
      nodes := [];
    }

    /** `push` */
    method Push(val: Node)
      requires Valid() && val !in nodes
      modifies this, nodes, val
      ensures Valid() && nodes == old(nodes) + [val]
    {
      if len == 0 {
        start := val;
        val.prev := null;
        val.next := null;
      } else {
        end.next := val;
        val.prev := end;
        val.next := null;
      }
      end := val;
      len := len + 1;
      nodes := nodes + [val];
    }

    /** `pop` */
    method Pop() returns (out: Option<Node>)
      requires Valid()
      modifies this, nodes
      ensures Valid()
      ensures old(nodes) == [] ==> out.None? && nodes == []
      ensures old(nodes) != [] ==> out == Some(old(nodes)[|old(nodes)| - 1]) && nodes == old(nodes)[..|old(nodes)| - 1]
    {
      if len == 0 {
        return None;
      }
      out := Some(end);
      if len > 1 {
        end := end.prev;
        end.next := null;
      }
      len := len - 1;
      nodes := nodes[..|nodes| - 1];
    }

    /** `push_front` */
    method PushFront(val: Node)
      requires Valid() && val !in nodes
      modifies this, nodes, val
      ensures Valid() && nodes == [val] + old(nodes)
    {
      if len == 0 {
        end := val;
        val.prev := null;
        val.next := null;
      } else {
        start.prev := val;
        val.next := start;
        val.prev := null;
      }
      start := val;
      len := len + 1;
      nodes := [val] + nodes;
    }

    /** `pop_front` */
    method PopFront() returns (out: Option<Node>)
      requires Valid()
      modifies this, nodes
      ensures Valid()
      ensures old(nodes) == [] ==> out.None? && nodes == []
      ensures old(nodes) != [] ==> out == Some(old(nodes)[0]) && nodes == old(nodes)[1..]
    {
      if len == 0 {
        return None;
      }
      out := Some(start);
      if len > 1 {
        start := start.next;
        start.prev := null;
      }
      len := len - 1;
      nodes := nodes[1..];
    }

    /** `insert_before`; `i` is where `node` is. */
    method InsertBefore(newNode: Node, node: Node, ghost i: nat)
      requires Valid() && newNode !in nodes && i < |nodes| && nodes[i] == node
      modifies this, nodes, newNode
      ensures Valid() && nodes == old(nodes)[..i] + [newNode] + old(nodes)[i..]
    {
      len := len + 1;
      if node.prev != null {
        var prevNode := node.prev;
        newNode.prev := prevNode;
        prevNode.next := newNode;
      } else {
        start := newNode;
        newNode.prev := null;
      }
      node.prev := newNode;
      newNode.next := node;
      DistinctWith(nodes, i, newNode);
      LinkedWith(nodes, i, newNode);
      nodes := nodes[..i] + [newNode] + nodes[i..];
    }

    /** `insert_after` */
    method InsertAfter(newNode: Node, node: Node, ghost i: nat)
      requires Valid() && newNode !in nodes && i < |nodes| && nodes[i] == node
      modifies this, nodes, newNode
      ensures Valid() && nodes == old(nodes)[..i + 1] + [newNode] + old(nodes)[i + 1..]
    {
      len := len + 1;
      if node.next != null {
        var nextNode := node.next;
        newNode.next := nextNode;
        nextNode.prev := newNode;
      } else {
        end := newNode;
        newNode.next := null;
      }
      node.next := newNode;
      newNode.prev := node;
      DistinctWith(nodes, i + 1, newNode);
      LinkedWith(nodes, i + 1, newNode);
      nodes := nodes[..i + 1] + [newNode] + nodes[i + 1..];
    }

    /** `remove_node`: the node itself keeps its links. */
    method RemoveNode(node: Node, ghost i: nat)
      requires Valid() && i < |nodes| && nodes[i] == node
      modifies this, nodes
      ensures Valid() && nodes == old(nodes)[..i] + old(nodes)[i + 1..]
      ensures node.next == At(old(nodes), i + 1)
    {
      hide Linked, Distinct;
      LinksOf(nodes, i);
      Bridge(node.prev, node.next, i);
      len := len - 1;
      DistinctWithout(nodes, i);
      LinkedWithout(nodes, i);
      nodes := nodes[..i] + nodes[i + 1..];
    }

    /** The links of `remove_node`: the neighbours of node `i` are linked to each other. */
    method Bridge(prev: Node?, next: Node?, ghost i: nat)
      requires Valid() && i < |nodes| && prev == At(nodes, i - 1) && next == At(nodes, i + 1)
      modifies this`start, this`end, nodes
      ensures forall k {:trigger nodes[k].prev} :: 0 <= k < |nodes| ==>
        nodes[k].prev == if k == i + 1 then At(nodes, i - 1) else At(nodes, k - 1)
      ensures forall k {:trigger nodes[k].next} :: 0 <= k < |nodes| ==>
        nodes[k].next == if k == i - 1 then At(nodes, i + 1) else At(nodes, k + 1)
      ensures start == (if prev == null then next else old(start)) && end == (if next == null then prev else old(end))
    {
      if prev == null {
        start := next;
      } else {
        prev.next := next;
      }
      if next == null {
        end := prev;
      } else {
        next.prev := prev;
      }
    }

    /** `get_node`: from the nearer end. */
    method GetNode(index: nat) returns (node: Node)
      requires Valid() && index < len
      ensures node == nodes[index]
    {
      if index * 2 > len {
        node := end;
        ghost var at := len - 1;
        for k := 0 to len - index - 1
          invariant at == len - 1 - k && node == nodes[at]
        {
          node := node.prev;
          at := at - 1;
        }
      } else {
        node := start;
        for k := 0 to index
          invariant node == nodes[k]
        {
          node := node.next;
        }
      }
    }

    /** `insert` */
    method Insert(index: nat, val: Node) returns (ok: bool)
      requires Valid() && val !in nodes
      modifies this, nodes, val
      ensures Valid() && ok == (index <= |old(nodes)|)
      ensures nodes == if ok then old(nodes)[..index] + [val] + old(nodes)[index..] else old(nodes)
    {
      if index > len {
        return false;
      }
      if index == 0 {
        PushFront(val);
        return true;
      }
      if index == len {
        Push(val);
        return true;
      }
      var node := GetNode(index);
      InsertBefore(val, node, index);
      return true;
    }

    /** `remove` */
    method Remove(index: nat) returns (out: Option<Node>)
      requires Valid()
      modifies this, nodes
      ensures Valid()
      ensures index >= |old(nodes)| ==> out.None? && nodes == old(nodes)
      ensures index < |old(nodes)| ==>
        out == Some(old(nodes)[index]) && nodes == old(nodes)[..index] + old(nodes)[index + 1..]
    {
      if index >= len {
        return None;
      }
      if index == 0 {
        out := PopFront();
        return;
      }
      if index == len - 1 {
        out := Pop();
        return;
      }
      var node := GetNode(index);
      RemoveNode(node, index);
      out := Some(node);
    }
  }

  /** `Iter`: has already read the way to the next node when it gives one out. */
  class Iter {
    var start: Node?
    var len: nat

    constructor (list: LinkedList)
      ensures start == list.start && len == list.len
    {
      start, len := list.start, list.len;
    }

    /** `next` */
    method Next() returns (out: Option<Node>)
      requires len > 0 ==> start != null
      modifies this
      ensures old(len) == 0 ==> out.None? && len == 0 && start == old(start)
      ensures old(len) > 0 ==> out == Some(old(start)) && len == old(len) - 1 && start == old(start.next)
    {
      if len == 0 {
        return None;
      }
      var node := start;
      start := node.next;
      len := len - 1;
      out := Some(node);
    }
  }

  // ---------------------------------------------------------------------------------------
  // Moving nodes while iterating

  function Expired(s: seq<Node>, now: int): seq<Node> {
    if s == [] then [] else (if now >= s[0].key then [s[0]] else []) + Expired(s[1..], now)
  }

  function Waiting(s: seq<Node>, now: int): seq<Node> {
    if s == [] then [] else (if now >= s[0].key then [] else [s[0]]) + Waiting(s[1..], now)
  }

  /** The nodes that are moved are just those whose time has come, each once. */
  lemma {:induction false} WokenExactly(s: seq<Node>, now: int)
    ensures forall n :: n in Expired(s, now) <==> n in s && now >= n.key
    ensures forall n :: n in Waiting(s, now) <==> n in s && now < n.key
    ensures multiset(Expired(s, now)) + multiset(Waiting(s, now)) == multiset(s)
  {
    if s != [] {
      WokenExactly(s[1..], now);
      assert s == [s[0]] + s[1..];
    }
  }

  lemma LookAt(s: seq<Node>, now: int)
    requires s != []
    ensures Expired(s, now) == (if now >= s[0].key then [s[0]] else []) + Expired(s[1..], now)
    ensures Waiting(s, now) == (if now >= s[0].key then [] else [s[0]]) + Waiting(s[1..], now)
  {
  }

  /** Two lists have no node in common. */
  ghost predicate Apart(s: seq<Node>, t: seq<Node>) {
    forall i, j {:trigger s[i], t[j]} :: 0 <= i < |s| && 0 <= j < |t| ==> s[i] != t[j]
  }

  ghost predicate Within(s: seq<Node>, all: set<Node>) {
    forall i {:trigger s[i]} :: 0 <= i < |s| ==> s[i] in all
  }

  /** `remove_node` and `push`: a node goes from one list to the end of another. */
  method MoveTo(list: LinkedList, other: LinkedList, node: Node, ghost i: nat, ghost all: set<Node>)
    requires list != other && list.Valid() && other.Valid() && Apart(list.nodes, other.nodes)
    requires Within(list.nodes, all) && Within(other.nodes, all)
    requires i < |list.nodes| && list.nodes[i] == node
    modifies list, other, all
    ensures list.Valid() && other.Valid() && Apart(list.nodes, other.nodes)
    ensures Within(list.nodes, all) && Within(other.nodes, all)
    ensures list.nodes == old(list.nodes)[..i] + old(list.nodes)[i + 1..]
    ensures other.nodes == old(other.nodes) + [node]
  {
    list.RemoveNode(node, i);
    assert other.Valid();
    other.Push(node);
  }

  /**
   The loop of `time_handler`: nodes whose time has come are moved to another list while the first
   one is iterated over.  Each node is looked at once, and just those are moved.
   */
  method WakeExpired(list: LinkedList, other: LinkedList, now: int, ghost all: set<Node>)
    requires list != other && list.Valid() && other.Valid() && Apart(list.nodes, other.nodes)
    requires Within(list.nodes, all) && Within(other.nodes, all)
    modifies list, other, all
    ensures list.Valid() && other.Valid() && Apart(list.nodes, other.nodes)
    ensures list.nodes == Waiting(old(list.nodes), now)
    ensures other.nodes == old(other.nodes) + Expired(old(list.nodes), now)
  {
    hide Expired, Waiting, Linked, Distinct, Apart, Within;
    var iter := new Iter(list);
    ghost var kept: seq<Node>, rest := [], list.nodes;
    while iter.len > 0
      invariant fresh(iter) && list.Valid() && other.Valid() && Apart(list.nodes, other.nodes)
      invariant Within(list.nodes, all) && Within(other.nodes, all)
      invariant list.nodes == kept + rest
      invariant iter.len == |rest| && (rest != [] ==> iter.start == rest[0])
      invariant kept + Waiting(rest, now) == Waiting(old(list.nodes), now)
      invariant other.nodes + Expired(rest, now) == old(other.nodes) + Expired(old(list.nodes), now)
    {
      ghost var r := rest[1..];
      LookAt(rest, now);
      NextIs(list, |kept|);
      var node := iter.Next();
      if now >= node.value.key {
        MoveTo(list, other, node.value, |kept|, all);
      } else {
        kept := kept + [rest[0]];
      }
      rest := r;
    }
    NothingLeft(now);
  }

  lemma NothingLeft(now: int)
    ensures Expired([], now) == [] && Waiting([], now) == []
  {
  }

  lemma NextIs(list: LinkedList, i: nat)
    requires list.Valid() && i < |list.nodes|
    ensures list.nodes[i].next == At(list.nodes, i + 1)
  {
  }
}
