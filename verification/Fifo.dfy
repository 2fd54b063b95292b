/** What the operations of sample/queue.c mean on the sequence of stored elements. */
module Fifo {

  datatype Option<+T> = None | Some(value: T)

  /** Index of the first element that the search function accepts, or the length. */
  function Find<T>(q: seq<T>, f: T -> bool): (i: nat)
    ensures i <= |q|
    ensures i < |q| ==> f(q[i])
    ensures forall k :: 0 <= k < i ==> !f(q[k])
  {
    if q == [] || f(q[0]) then 0 else 1 + Find(q[1..], f)
  }

  function Search<T>(q: seq<T>, f: T -> bool): Option<T> {
    var i := Find(q, f);
    if i < |q| then Some(q[i]) else None
  }

  /** The queue after qremove: the first accepted element is gone, the order is kept. */
  function Without<T>(q: seq<T>, f: T -> bool): seq<T> {
    var i := Find(q, f);
    if i < |q| then q[..i] + q[i + 1..] else q
  }

  lemma FindIs<T>(q: seq<T>, f: T -> bool, i: nat)
    requires i <= |q|
    requires i < |q| ==> f(q[i])
    requires forall k :: 0 <= k < i ==> !f(q[k])
    ensures Find(q, f) == i
  {
    var j := Find(q, f);
  }

  lemma WithoutMultiset<T>(q: seq<T>, f: T -> bool)
    ensures match Search(q, f)
            case Some(x) => multiset(q) == multiset(Without(q, f)) + multiset{x}
            case None => Without(q, f) == q
  {
    var i := Find(q, f);
    if i < |q| {
      assert q == q[..i] + [q[i]] + q[i + 1..];
    }
  }
}
