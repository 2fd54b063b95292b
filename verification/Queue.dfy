/**
 * The linked FIFO of sample/queue.c: nodes on the heap, a front and a back
 * pointer, and explicit freeing. Every operation is tied to its meaning on the
 * sequence of stored elements (module Fifo).
 */
module LinkedQueue {
  import opened Fifo

  class Node<T> {
    var data: T
    var next: Node?<T>
    // set by free(): every method asserts that a node it reads or writes has not been freed
    ghost var freed: bool

    constructor (x: T)
      ensures data == x && next == null && !freed
    {
      data := x;
      next := null;
      freed := false;
    }
  }

  /** free(): the argument must be an allocation that has not been freed yet. */
  ghost method Free<T>(n: Node<T>)
    requires !n.freed
    modifies n`freed
    ensures n.freed
  {
    n.freed := true;
  }

  ghost function Drop<X>(s: seq<X>, i: nat): seq<X>
    requires i < |s|
  {
    s[..i] + s[i + 1..]
  }

  lemma DropAt<X>(s: seq<X>, i: nat)
    requires i < |s|
    ensures |Drop(s, i)| == |s| - 1
    ensures forall k :: 0 <= k < |s| - 1 ==> Drop(s, i)[k] == s[if k < i then k else k + 1]
  {
  }

  lemma DropIs<X>(s: seq<X>, f: X -> bool, i: nat)
    requires i < |s| && f(s[i]) && forall k :: 0 <= k < i ==> !f(s[k])
    ensures i == Find(s, f) && Drop(s, i) == Without(s, f) && Search(s, f) == Some(s[i])
  {
    FindIs(s, f, i);
  }

  class Queue<T> {
    var front: Node?<T>
    // left dangling by Get when it empties the queue: only meaningful while front is not null
    var back: Node?<T>
    ghost var nodes: seq<Node<T>>
    ghost var contents: seq<T>
    ghost var closed: bool

    /** The nodes are distinct, unfreed, and carry the contents in order. */
    ghost predicate Holds()
      reads this, nodes
    {
      && !closed
      && |nodes| == |contents|
      && (forall i, j :: 0 <= i < j < |nodes| ==> nodes[i] != nodes[j])
      && (forall i :: 0 <= i < |nodes| ==> !nodes[i].freed && nodes[i].data == contents[i])
    }

    ghost predicate Valid()
      reads this, nodes
    {
      && Holds()
      && (forall i :: 0 <= i < |nodes| - 1 ==> nodes[i].next == nodes[i + 1])
      && (if nodes == [] then front == null
          else front == nodes[0] && back == nodes[|nodes| - 1] && back.next == null)
    }

    /** Every node is one that the queue had or a new one. */
    twostate predicate Renewed()
      reads this
    {
      forall k :: 0 <= k < |nodes| ==> nodes[k] in old(nodes) || fresh(nodes[k])
    }

    /** qopen */
    constructor ()
      ensures Valid() && contents == [] && nodes == []
    {
      front := null;
      back := null;
      nodes := [];
      contents := [];
      closed := false;
    }

    /** qput: appends at the tail, whatever an emptying Get left in back. */
    method Put(x: T)
      requires Valid()
      modifies this, nodes
      ensures Valid() && Renewed() && contents == old(contents) + [x]
      ensures |nodes| == |old(nodes)| + 1 && nodes[..|old(nodes)|] == old(nodes)
      ensures fresh(nodes[|old(nodes)|])
    {
      var element := new Node(x);
      if front == null {
        front := element;
        back := element;
      } else {
        assert !back.freed;
        back.next := element;
        back := element;
      }
      nodes := nodes + [element];
      contents := contents + [x];
    }

    /** qget: takes the head and frees its node; back is not touched. */
    method Get() returns (r: Option<T>)
      requires Valid()
      modifies this, nodes
      ensures Valid() && Renewed()
      ensures match r
              case None => old(contents) == contents == [] && nodes == old(nodes)
              case Some(x) =>
                && old(contents) == [x] + contents
                && old(nodes) == [old(nodes)[0]] + nodes
                && old(nodes)[0].freed
    {
      if front == null {
        return None;
      }
      var cnode := front;
      assert !cnode.freed;
      front := cnode.next;
      r := Some(cnode.data);
      Free(cnode);
      nodes := nodes[1..];
      contents := contents[1..];
    }

    /** qsearch: the first element that the search function accepts. */
    method SearchFor(f: T -> bool) returns (r: Option<T>)
      requires Valid()
      ensures r == Search(contents, f)
    {
      if front == null {
        return None;
      }
      var cnode := front;
      ghost var i := 0;
      while cnode != null
        invariant 0 <= i <= |nodes|
        invariant if i < |nodes| then cnode == nodes[i] else cnode == null
        invariant forall k :: 0 <= k < i ==> !f(contents[k])
        decreases |nodes| - i
      {
        assert !cnode.freed;
        if f(cnode.data) {
          FindIs(contents, f, i);
          return Some(cnode.data);
        }
        cnode := cnode.next;
        i := i + 1;
      }
      FindIs(contents, f, |nodes|);
      r := None;
    }

    /** qisempty */
    method IsEmpty() returns (b: bool)
      requires Valid()
      ensures b <==> contents == []
    {
      b := front == null;
    }

    /** All links of Valid, except that the node at index i is already bypassed. */
    ghost predicate Bypassed(i: nat)
      reads this, nodes
    {
      && Holds()
      && i < |nodes|
      && (forall k :: 0 <= k < |nodes| - 1 && k != i && k + 1 != i ==> nodes[k].next == nodes[k + 1])
      && (0 < i < |nodes| - 1 ==> nodes[i - 1].next == nodes[i + 1])
      && (if |nodes| == 1 then front == null
          else
            && front == (if i == 0 then nodes[1] else nodes[0])
            && back == (if i == |nodes| - 1 then nodes[i - 1] else nodes[|nodes| - 1])
            && back.next == null)
    }

    /** free(cnode) at the end of each removing branch of qremove. */
    ghost method Unlink(i: nat, n: Node<T>, f: T -> bool)
      requires Bypassed(i) && n == nodes[i]
      requires f(contents[i]) && forall k :: 0 <= k < i ==> !f(contents[k])
      modifies this`nodes, this`contents, n`freed
      ensures Valid() && n.freed
      ensures nodes == Drop(old(nodes), i)
      ensures i == Find(old(contents), f) && contents == Without(old(contents), f)
      ensures Search(old(contents), f) == Some(old(contents)[i])
    {
      DropIs(contents, f, i);
      n.freed := true;
      nodes := Drop(nodes, i);
      contents := Drop(contents, i);
      DropAt(old(nodes), i);
      DropAt(old(contents), i);
      hide Drop, Find, Search, Without;
      assert Holds();
    }

    /** What qremove with search function f promises, from the old contents and nodes. */
    twostate predicate RemovedFirst(f: T -> bool, new r: Option<T>)
      reads this, nodes
    {
      && r == Search(old(contents), f)
      && contents == Without(old(contents), f)
      && (if r.None? then nodes == old(nodes)
          else
            var i := Find(old(contents), f);
            i < |old(nodes)| && nodes == Drop(old(nodes), i))
    }

    /** qremove: drops the first accepted element only and keeps the order of the rest. */
    method Remove(f: T -> bool) returns (r: Option<T>)
      requires Valid()
      modifies this, nodes
      ensures Valid() && Renewed() && RemovedFirst(f, r)
    {
      if front == null {
        return None;
      }
      var cnode := front;
      assert !cnode.freed;
      if front == back {
        if f(cnode.data) {
          r := Some(cnode.data);
          front := null;
          back := null;
          Unlink(0, cnode, f);
          return;
        }
      }
      if f(cnode.data) {
        r := Some(cnode.data);
        front := cnode.next;
        Unlink(0, cnode, f);
        return;
      }
      r := RemoveBehindFront(f);
    }

    /** The loop of qremove: the front node has been looked at already. */
    method RemoveBehindFront(f: T -> bool) returns (r: Option<T>)
      requires Valid() && contents != [] && !f(contents[0])
      modifies this, nodes
      ensures Valid() && Renewed() && RemovedFirst(f, r)
    {
      var pnode := front;
      assert !pnode.freed;
      var cnode := pnode.next;
      ghost var i := 1;
      while cnode != null
        invariant 1 <= i <= |nodes|
        invariant pnode == nodes[i - 1]
        invariant if i < |nodes| then cnode == nodes[i] else cnode == null
        invariant forall k :: 0 <= k < i ==> !f(contents[k])
        decreases |nodes| - i
      {
        assert !cnode.freed && !pnode.freed;
        if f(cnode.data) {
          r := Some(cnode.data);
          if cnode == back {
            pnode.next := null;
            back := pnode;
          } else {
            pnode.next := cnode.next;
          }
          Unlink(i, cnode, f);
          return;
        }
        pnode := pnode.next;
        cnode := cnode.next;
        i := i + 1;
      }
      FindIs(contents, f, |nodes|);
      r := None;
    }

    /** qclose: frees every node exactly once, then the queue itself. */
    method Close()
      requires Valid()
      modifies this`closed, nodes
      ensures closed
      ensures forall i :: 0 <= i < |nodes| ==> nodes[i].freed
    {
      if front == null {
        closed := true;
        return;
      }
      var pnode := front;
      assert !pnode.freed;
      var cnode := pnode.next;
      ghost var i := 0;
      while cnode != null
        invariant 0 <= i < |nodes|
        invariant pnode == nodes[i]
        invariant if i + 1 < |nodes| then cnode == nodes[i + 1] else cnode == null
        invariant forall k :: 0 <= k < |nodes| - 1 ==> nodes[k].next == nodes[k + 1]
        invariant nodes[|nodes| - 1].next == null
        invariant forall k :: 0 <= k < |nodes| ==> (nodes[k].freed <==> k < i)
        decreases |nodes| - i
      {
        Free(pnode);
        pnode := cnode;
        assert !cnode.freed;
        cnode := cnode.next;
        i := i + 1;
      }
      Free(pnode);
      closed := true;
    }
  }

  /**
   * qconcat on two distinct queues. An empty second queue is left open,
   * a non-empty one is closed.
   */
  method Concat<T>(q1: Queue<T>, q2: Queue<T>)
    requires q1.Valid() && q2.Valid() && q1 != q2
    requires forall i, j :: 0 <= i < |q1.nodes| && 0 <= j < |q2.nodes| ==> q1.nodes[i] != q2.nodes[j]
    modifies q1, q1.nodes, q2`closed, q2.nodes
    ensures q1.Valid() && q1.Renewed() && q1.contents == old(q1.contents) + old(q2.contents)
    ensures old(q1.nodes) <= q1.nodes && forall k :: |old(q1.nodes)| <= k < |q1.nodes| ==> fresh(q1.nodes[k])
    ensures if old(q2.contents) == [] then q2.Valid() && q2.contents == [] && q2.nodes == []
            else q2.closed && forall i :: 0 <= i < |q2.nodes| ==> q2.nodes[i].freed
  {
    if q2.front == null {
      return;
    }
    PutAll(q1, q2);
    q2.Close();
  }

  /** The loop of qconcat. */
  method PutAll<T>(q1: Queue<T>, q2: Queue<T>)
    requires q1.Valid() && q2.Valid() && q1 != q2
    requires forall i, j :: 0 <= i < |q1.nodes| && 0 <= j < |q2.nodes| ==> q1.nodes[i] != q2.nodes[j]
    modifies q1, q1.nodes
    ensures q1.Valid() && q2.Valid() && q1.contents == old(q1.contents) + q2.contents
    ensures old(q1.nodes) <= q1.nodes && forall k :: |old(q1.nodes)| <= k < |q1.nodes| ==> fresh(q1.nodes[k])
  {
    hide Queue.Renewed;
    var cnode := q2.front;
    ghost var i := 0;
    while cnode != null
      invariant q1.Valid() && q2.Valid()
      invariant 0 <= i <= |q2.nodes|
      invariant if i < |q2.nodes| then cnode == q2.nodes[i] else cnode == null
      invariant old(q1.nodes) <= q1.nodes
      invariant forall k :: |old(q1.nodes)| <= k < |q1.nodes| ==> fresh(q1.nodes[k])
      invariant q1.contents == old(q1.contents) + q2.contents[..i]
      decreases |q2.nodes| - i
    {
      assert forall j :: 0 <= j < |q2.nodes| ==> q2.nodes[j] !in q1.nodes;
      assert !cnode.freed;
      var nextNode := cnode.next;
      assert if i + 1 < |q2.nodes| then nextNode == q2.nodes[i + 1] else nextNode == null;
      assert q2.contents[..i + 1] == q2.contents[..i] + [cnode.data];
      q1.Put(cnode.data);
      hide Queue.Valid, Queue.Holds;
      cnode := cnode.next;
      i := i + 1;
    }
  }
}
