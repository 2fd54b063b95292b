/** Several queues used together: any mix of the operations refines one sequence per queue. */
module QueueRuns {
  import opened Fifo
  import opened LinkedQueue

  // ------------------------------------------------------------ the meaning of a mix of operations

  /** The queues by number; one that has been closed by qconcat has no contents. */
  type World<T> = seq<Option<seq<T>>>

  datatype Op<!T> =
    | Put(i: nat, x: T)
    | Get(i: nat)
    | SearchFor(i: nat, f: T -> bool)
    | Remove(i: nat, f: T -> bool)
    | Concat(i: nat, j: nat)

  predicate Open<T>(w: World<T>, i: nat) {
    i < |w| && w[i].Some?
  }

  /** Operations are for queues that are open, and qconcat for two different ones. */
  predicate Allowed<T>(w: World<T>, op: Op<T>) {
    Open(w, op.i) && (op.Concat? ==> op.i != op.j && Open(w, op.j))
  }

  function After<T>(w: World<T>, op: Op<T>): (w': World<T>)
    requires Allowed(w, op)
    ensures |w'| == |w|
  {
    var q := w[op.i].value;
    match op
    case Put(i, x) => w[i := Some(q + [x])]
    case Get(i) => if q == [] then w else w[i := Some(q[1..])]
    case SearchFor(i, f) => w
    case Remove(i, f) => w[i := Some(Without(q, f))]
    case Concat(i, j) =>
      if w[j].value == [] then w else w[i := Some(q + w[j].value)][j := None]
  }

  function Answer<T>(w: World<T>, op: Op<T>): Option<T>
    requires Allowed(w, op)
  {
    var q := w[op.i].value;
    match op
    case Get(_) => if q == [] then None else Some(q[0])
    case SearchFor(_, f) => Fifo.Search(q, f)
    case Remove(_, f) => Fifo.Search(q, f)
    case _ => None
  }

  predicate AllAllowed<T>(w: World<T>, ops: seq<Op<T>>)
    decreases |ops|
  {
    ops == [] || (Allowed(w, ops[0]) && AllAllowed(After(w, ops[0]), ops[1..]))
  }

  function AfterAll<T>(w: World<T>, ops: seq<Op<T>>): (w': World<T>)
    requires AllAllowed(w, ops)
    ensures |w'| == |w|
    decreases |ops|
  {
    if ops == [] then w else AfterAll(After(w, ops[0]), ops[1..])
  }

  function Answers<T>(w: World<T>, ops: seq<Op<T>>): (r: seq<Option<T>>)
    requires AllAllowed(w, ops)
    ensures |r| == |ops|
    decreases |ops|
  {
    if ops == [] then [] else [Answer(w, ops[0])] + Answers(After(w, ops[0]), ops[1..])
  }

  // ------------------------------------------------------------ nothing is lost or doubled

  /** How often x is in a queue. */
  function Held<T(==)>(q: Option<seq<T>>, x: T): nat {
    if q.Some? then multiset(q.value)[x] else 0
  }

  /** How often x is in the open queues. */
  function Stored<T(==)>(w: World<T>, x: T): nat {
    if w == [] then 0 else Held(w[0], x) + Stored(w[1..], x)
  }

  lemma {:induction false} StoredUpdate<T>(w: World<T>, i: nat, q: Option<seq<T>>, x: T)
    requires i < |w|
    ensures Stored(w[i := q], x) + Held(w[i], x) == Stored(w, x) + Held(q, x)
  {
    if i == 0 {
      assert w[0 := q][1..] == w[1..];
    } else {
      assert w[i := q][1..] == w[1..][i - 1 := q];
      StoredUpdate(w[1..], i - 1, q, x);
    }
  }

  function Added<T(==)>(op: Op<T>, x: T): nat {
    if op.Put? && op.x == x then 1 else 0
  }

  /** Get and Remove take the element that they return out of its queue. */
  function Taken<T(==)>(w: World<T>, op: Op<T>, x: T): nat
    requires Allowed(w, op)
  {
    if (op.Get? || op.Remove?) && Answer(w, op) == Some(x) then 1 else 0
  }

  function AddedBy<T(==)>(ops: seq<Op<T>>, x: T): nat {
    if ops == [] then 0 else Added(ops[0], x) + AddedBy(ops[1..], x)
  }

  function TakenBy<T(==)>(w: World<T>, ops: seq<Op<T>>, x: T): nat
    requires AllAllowed(w, ops)
    decreases |ops|
  {
    if ops == [] then 0 else Taken(w, ops[0], x) + TakenBy(After(w, ops[0]), ops[1..], x)
  }

  lemma StepConserves<T>(w: World<T>, op: Op<T>, x: T)
    requires Allowed(w, op)
    ensures Stored(After(w, op), x) + Taken(w, op, x) == Stored(w, x) + Added(op, x)
  {
    hide Find, Fifo.Search, Without, Stored;
    var q := w[op.i].value;
    match op
    case Put(i, y) => StoredUpdate(w, i, Some(q + [y]), x);
    case Get(i) =>
      if q != [] {
        assert q == [q[0]] + q[1..];
        StoredUpdate(w, i, Some(q[1..]), x);
      }
    case SearchFor(_, _) =>
    case Remove(i, f) =>
      WithoutMultiset(q, f);
      StoredUpdate(w, i, Some(Without(q, f)), x);
    case Concat(i, j) =>
      StoredUpdate(w, i, Some(q + w[j].value), x);
      StoredUpdate(w[i := Some(q + w[j].value)], j, None, x);
  }

  /** Over any mix, for every x: as often as it was put, it has been taken out or is still there. */
  lemma {:induction false} RunConserves<T>(w: World<T>, ops: seq<Op<T>>, x: T)
    requires AllAllowed(w, ops)
    ensures Stored(AfterAll(w, ops), x) + TakenBy(w, ops, x) == Stored(w, x) + AddedBy(ops, x)
    decreases |ops|
  {
    if ops != [] {
      hide Stored, Added, Taken, After, Allowed;
      StepConserves(w, ops[0], x);
      RunConserves(After(w, ops[0]), ops[1..], x);
    }
  }

  // ------------------------------------------------------------ the queues on the heap

  ghost function Nodes<T>(qs: seq<Queue<T>>): set<object>
    reads qs
  {
    set i, k | 0 <= i < |qs| && 0 <= k < |qs[i].nodes| :: qs[i].nodes[k] as object
  }

  ghost predicate Disjoint<T>(q1: Queue<T>, q2: Queue<T>)
    reads q1, q2
  {
    forall k, l :: 0 <= k < |q1.nodes| && 0 <= l < |q2.nodes| ==> q1.nodes[k] != q2.nodes[l]
  }

  /** The queues are distinct; the open ones are valid and share no node. */
  ghost predicate Separate<T>(qs: seq<Queue<T>>)
    reads qs, Nodes(qs)
  {
    && (forall i, j :: 0 <= i < j < |qs| ==> qs[i] != qs[j])
    && (forall i :: 0 <= i < |qs| ==> qs[i].closed || qs[i].Valid())
    && (forall i, j :: 0 <= i < j < |qs| && !qs[i].closed && !qs[j].closed ==> Disjoint(qs[i], qs[j]))
  }

  ghost function Contents<T>(qs: seq<Queue<T>>): (w: World<T>)
    reads qs
    ensures |w| == |qs|
  {
    seq(|qs|, i requires 0 <= i < |qs| reads qs => if qs[i].closed then None else Some(qs[i].contents))
  }

  /** An operation that gives new nodes to queue i only; another queue may have been closed. */
  twostate predicate Renews<T>(qs: seq<Queue<T>>, i: nat)
    reads qs, Nodes(qs)
  {
    && i < |qs| && !old(qs[i].closed) && qs[i].Valid() && qs[i].Renewed()
    && (forall j :: 0 <= j < |qs| && j != i ==>
          qs[j].nodes == old(qs[j].nodes) && (qs[j].closed || (!old(qs[j].closed) && qs[j].Valid())))
  }

  /** The same, and the contents of the others stay. */
  twostate predicate Writes<T>(qs: seq<Queue<T>>, i: nat)
    reads qs, Nodes(qs)
  {
    && Renews(qs, i)
    && (forall j :: 0 <= j < |qs| && j != i ==>
          qs[j].contents == old(qs[j].contents) && qs[j].closed == old(qs[j].closed))
  }

  twostate lemma WrittenOne<T>(qs: seq<Queue<T>>)
    requires old(Separate(qs)) && exists n: nat :: Writes(qs, n)
    ensures Separate(qs) && fresh(Nodes(qs) - old(Nodes(qs)))
    ensures forall i: nat :: Writes(qs, i) ==> Contents(qs) == old(Contents(qs))[i := Some(qs[i].contents)]
  {
    StaysSeparate(qs);
    hide Separate, Queue.Valid, Queue.Holds, Queue.Renewed;
    forall i: nat | Writes(qs, i) ensures Contents(qs) == old(Contents(qs))[i := Some(qs[i].contents)] {}
  }

  twostate lemma StaysSeparate<T>(qs: seq<Queue<T>>)
    requires old(Separate(qs)) && exists n: nat :: Renews(qs, n)
    ensures Separate(qs) && fresh(Nodes(qs) - old(Nodes(qs)))
  {
    forall i, j | 0 <= i < j < |qs| && !qs[i].closed && !qs[j].closed ensures Disjoint(qs[i], qs[j]) {
      assert old(Disjoint(qs[i], qs[j]));
    }
    forall i | 0 <= i < |qs| ensures qs[i].Renewed() {}
  }

  /** One operation on one of the queues. */
  method Perform<T>(qs: seq<Queue<T>>, op: Op<T>) returns (r: Option<T>)
    requires Separate(qs) && Allowed(Contents(qs), op)
    modifies qs, Nodes(qs)
    ensures Separate(qs) && fresh(Nodes(qs) - old(Nodes(qs)))
    ensures Contents(qs) == After(old(Contents(qs)), op) && r == Answer(old(Contents(qs)), op)
  {
    r := None;
    match op
    case Put(i, x) => PutInto(qs, i, x);
    case Get(i) => r := GetFrom(qs, i);
    case SearchFor(i, f) => r := qs[i].SearchFor(f);
    case Remove(i, f) => hide Fifo.Search, Without; r := RemoveFrom(qs, i, f);
    case Concat(i, j) => Join(qs, i, j);
  }

  lemma NodesApart<T>(qs: seq<Queue<T>>, i: nat)
    requires Separate(qs) && i < |qs| && !qs[i].closed
    ensures forall j, l :: 0 <= j < |qs| && j != i && !qs[j].closed && 0 <= l < |qs[j].nodes| ==>
      qs[j].nodes[l] !in qs[i].nodes
    ensures forall j :: 0 <= j < |qs| && !qs[j].closed ==> qs[j].Valid()
    ensures forall j :: 0 <= j < |qs| && j != i ==> qs[j] != qs[i]
  {
    forall j, l | 0 <= j < |qs| && j != i && !qs[j].closed && 0 <= l < |qs[j].nodes|
      ensures qs[j].nodes[l] !in qs[i].nodes
    {
      assert if i < j then Disjoint(qs[i], qs[j]) else Disjoint(qs[j], qs[i]);
    }
  }

  method PutInto<T>(qs: seq<Queue<T>>, i: nat, x: T)
    requires Separate(qs) && Open(Contents(qs), i)
    modifies qs, Nodes(qs)
    ensures Separate(qs) && fresh(Nodes(qs) - old(Nodes(qs)))
    ensures Contents(qs) == old(Contents(qs))[i := Some(old(qs[i].contents) + [x])]
  {
    NodesApart(qs, i);
    hide Disjoint, Separate, Queue.Valid, Queue.Holds, Queue.Renewed;
    qs[i].Put(x);
    assert Writes(qs, i);
    hide *;
    WrittenOne(qs);
  }

  method GetFrom<T>(qs: seq<Queue<T>>, i: nat) returns (r: Option<T>)
    requires Separate(qs) && Open(Contents(qs), i)
    modifies qs, Nodes(qs)
    ensures Separate(qs) && fresh(Nodes(qs) - old(Nodes(qs)))
    ensures var q := old(qs[i].contents);
      if q == [] then Contents(qs) == old(Contents(qs)) && r == None
      else Contents(qs) == old(Contents(qs))[i := Some(q[1..])] && r == Some(q[0])
  {
    NodesApart(qs, i);
    hide Disjoint, Separate, Queue.Valid, Queue.Holds, Queue.Renewed;
    r := qs[i].Get();
    assert Writes(qs, i);
    assert r == None ==> Contents(qs) == old(Contents(qs));
    hide *;
    WrittenOne(qs);
  }

  method RemoveFrom<T>(qs: seq<Queue<T>>, i: nat, f: T -> bool) returns (r: Option<T>)
    requires Separate(qs) && Open(Contents(qs), i)
    modifies qs, Nodes(qs)
    ensures Separate(qs) && fresh(Nodes(qs) - old(Nodes(qs)))
    ensures var q := old(qs[i].contents);
      Contents(qs) == old(Contents(qs))[i := Some(Without(q, f))] && r == Fifo.Search(q, f)
  {
    NodesApart(qs, i);
    hide Find, Fifo.Search, Without, Drop, Disjoint, Separate, Queue.Valid, Queue.Holds, Queue.Renewed;
    r := qs[i].Remove(f);
    assert Writes(qs, i);
    hide *;
    WrittenOne(qs);
  }

  method Join<T>(qs: seq<Queue<T>>, i: nat, j: nat)
    requires Separate(qs) && i != j && Open(Contents(qs), i) && Open(Contents(qs), j)
    modifies qs, Nodes(qs)
    ensures Separate(qs) && fresh(Nodes(qs) - old(Nodes(qs)))
    ensures var w, added := old(Contents(qs)), old(qs[j].contents);
      Contents(qs) == if added == [] then w else w[i := Some(old(qs[i].contents) + added)][j := None]
  {
    NodesApart(qs, i);
    NodesApart(qs, j);
    hide Disjoint, Separate, Queue.Valid, Queue.Holds, Queue.Renewed;
    LinkedQueue.Concat(qs[i], qs[j]);
    assert Renews(qs, i);
    assert Joined(qs, i, j);
    hide Renews, Joined;
    StaysSeparate(qs);
    JoinedContents(qs);
  }

  /** Queue i has got the contents of queue j, and nothing else has changed. */
  twostate predicate Joined<T>(qs: seq<Queue<T>>, i: nat, j: nat)
    reads qs
  {
    && i < |qs| && j < |qs| && i != j && !old(qs[i].closed) && !old(qs[j].closed) && !qs[i].closed
    && qs[i].contents == old(qs[i].contents) + old(qs[j].contents)
    && (if old(qs[j].contents) == [] then !qs[j].closed && qs[j].contents == [] else qs[j].closed)
    && (forall k :: 0 <= k < |qs| && k != i && k != j ==>
          qs[k].contents == old(qs[k].contents) && qs[k].closed == old(qs[k].closed))
  }

  twostate lemma JoinedContents<T>(qs: seq<Queue<T>>)
    ensures forall i: nat, j: nat :: Joined(qs, i, j) ==>
      var w, added := old(Contents(qs)), old(qs[j].contents);
      Contents(qs) == if added == [] then w else w[i := Some(old(qs[i].contents) + added)][j := None]
  {
    forall i: nat, j: nat | Joined(qs, i, j)
      ensures var w, added := old(Contents(qs)), old(qs[j].contents);
        Contents(qs) == if added == [] then w else w[i := Some(old(qs[i].contents) + added)][j := None]
    {
      assert old(qs[i].contents) + [] == old(qs[i].contents);
    }
  }

  /** Any sequence of operations. */
  method PerformAll<T>(qs: seq<Queue<T>>, ops: seq<Op<T>>) returns (rs: seq<Option<T>>)
    requires Separate(qs) && AllAllowed(Contents(qs), ops)
    modifies qs, Nodes(qs)
    ensures Separate(qs) && fresh(Nodes(qs) - old(Nodes(qs)))
    ensures Contents(qs) == AfterAll(old(Contents(qs)), ops) && rs == Answers(old(Contents(qs)), ops)
    decreases |ops|
  {
    if ops == [] {
      return [];
    }
    var r := Perform(qs, ops[0]);
    var rest := PerformAll(qs, ops[1..]);
    rs := [r] + rest;
  }
}
