/**
 * strtok, strsep, strpbrk and __strxspn of etc/yuserlib/common: cutting a string
 * into tokens in place. A pointer is an index into the buffer that holds the string.
 */
module Tokens {
  import opened Fifo

  type Byte = c: char | c as int < 0x100 witness '\0'

  const NUL: Byte := '\0'

  /** A C string starts at index i. */
  ghost predicate Terminated(b: seq<Byte>, i: nat) {
    exists z: nat :: i <= z < |b| && b[z] == NUL
  }

  // ------------------------------------------------------------ spans

  /** Writes before j, where no NUL was, leave the string's end. */
  lemma StillTerminated(b: seq<Byte>, i: nat, c: seq<Byte>, j: nat)
    requires Terminated(b, i) && i <= j && forall k :: i <= k < j && k < |b| ==> b[k] != NUL
    requires |c| == |b| && forall k :: j <= k < |b| ==> c[k] == b[k]
    ensures Terminated(c, j)
  {
    var z: nat :| i <= z < |b| && b[z] == NUL;
    assert j <= z && c[z] == NUL;
  }

  /** The first index from i on where the string ends or where being in the set is the parity. */
  ghost function SpanEnd(b: seq<Byte>, i: nat, chars: seq<Byte>, parity: bool): (e: nat)
    requires Terminated(b, i)
    ensures i <= e < |b| && (b[e] == NUL || (b[e] in chars) == parity)
    ensures forall k :: i <= k < e ==> b[k] != NUL && (b[k] in chars) != parity
    decreases |b| - i
  {
    if b[i] == NUL || (b[i] in chars) == parity then i
    else
      assert exists z: nat :: i + 1 <= z < |b| && b[z] == NUL;
      SpanEnd(b, i + 1, chars, parity)
  }

  lemma SpanEndIs(b: seq<Byte>, i: nat, chars: seq<Byte>, parity: bool, e: nat)
    requires Terminated(b, i) && i <= e < |b| && (b[e] == NUL || (b[e] in chars) == parity)
    requires forall k :: i <= k < e ==> b[k] != NUL && (b[k] in chars) != parity
    ensures SpanEnd(b, i, chars, parity) == e
  {
  }

  lemma SpansAgree(b: seq<Byte>, c: seq<Byte>, i: nat, chars: seq<Byte>, parity: bool)
    requires Terminated(b, i) && |c| == |b| && forall k :: i <= k < |b| ==> c[k] == b[k]
    ensures Terminated(c, i) && SpanEnd(c, i, chars, parity) == SpanEnd(b, i, chars, parity)
  {
    var z: nat :| i <= z < |b| && b[z] == NUL;
    assert c[z] == NUL;
    SpanEndIs(c, i, chars, parity, SpanEnd(b, i, chars, parity));
  }

  /** Length of the longest prefix of bytes that are in the map (parity 0) or not in it (parity 1). */
  method Strxspn(b: array<Byte>, s0: nat, chars: seq<Byte>, parity: int) returns (n: nat)
    requires Terminated(b[..], s0) && NUL !in chars && (parity == 0 || parity == 1)
    ensures s0 + n == SpanEnd(b[..], s0, chars, parity == 1)
  {
    var matchmap := new int[0x100](_ => 0);
    var i := 0;
    while i < |chars|
      invariant 0 <= i <= |chars|
      invariant forall c: Byte :: matchmap[c as int] == if c in chars[..i] then 1 else 0
    {
      assert chars[..i + 1] == chars[..i] + [chars[i]];
      matchmap[chars[i] as int] := 1;
      i := i + 1;
    }
    assert chars[..i] == chars;
    matchmap[0] := parity;
    n := 0;
    var s := s0;
    while matchmap[b[s] as int] != parity
      invariant n == s - s0 && s0 <= s < b.Length && Terminated(b[..], s)
      invariant forall k :: s0 <= k < s ==> b[k] != NUL && (b[k] in chars) != (parity == 1)
      decreases b.Length - s
    {
      assert b[s] != NUL;
      n, s := n + 1, s + 1;
    }
    SpanEndIs(b[..], s0, chars, parity == 1, s);
  }

  /** First byte of the string that is in accept. */
  method Strpbrk(b: array<Byte>, s: nat, accept: seq<Byte>) returns (r: Option<nat>)
    requires Terminated(b[..], s) && NUL !in accept
    ensures var e := SpanEnd(b[..], s, accept, true); r == if b[e] == NUL then None else Some(e)
  {
    var n := Strxspn(b, s, accept, 1);
    var ss := s + n;
    r := if b[ss] != NUL then Some(ss) else None;
  }

  // ------------------------------------------------------------ strsep

  datatype Cut = Cut(b: seq<Byte>, rest: Option<nat>, result: Option<nat>)

  /** The pointer is null or points to a string. */
  ghost predicate PointsToString(b: seq<Byte>, p: Option<nat>) {
    p.Some? ==> Terminated(b, p.value)
  }

  /** One field: up to the first delimiter, which becomes its NUL. */
  ghost function SepOf(b: seq<Byte>, p: Option<nat>, delim: seq<Byte>): (c: Cut)
    requires PointsToString(b, p)
    ensures |c.b| == |b| && PointsToString(c.b, c.rest) && c.result == p
  {
    match p
    case None => Cut(b, None, None)
    case Some(s) =>
      var e := SpanEnd(b, s, delim, true);
      if b[e] == NUL then Cut(b, None, p)
      else
        StillTerminated(b, s, b[e := NUL], e + 1);
        Cut(b[e := NUL], Some(e + 1), p)
  }

  method Strsep(b: array<Byte>, stringp: Option<nat>, delim: seq<Byte>) returns (s: Option<nat>, stringp': Option<nat>)
    requires PointsToString(b[..], stringp) && NUL !in delim
    modifies b
    ensures Cut(b[..], stringp', s) == SepOf(old(b[..]), stringp, delim)
  {
    s := stringp;
    if s == None {
      return None, stringp;
    }
    var e := Strpbrk(b, s.value, delim);
    if e.Some? {
      b[e.value] := NUL;
      e := Some(e.value + 1);
    }
    stringp' := e;
  }

  // ------------------------------------------------------------ strtok

  /** Bytes i..j of the buffer cleared. */
  ghost function Cleared(b: seq<Byte>, i: nat, j: nat): (r: seq<Byte>)
    ensures |r| == |b|
  {
    seq(|b|, k requires 0 <= k < |b| => if i <= k < j then NUL else b[k])
  }

  /**
   * One call of strtok on the string at p: leading delimiters are cleared, and the first
   * piece without delimiters is cut off.
   */
  ghost function TokOf(b: seq<Byte>, p: Option<nat>, delim: seq<Byte>): (c: Cut)
    requires PointsToString(b, p)
    ensures |c.b| == |b| && PointsToString(c.b, c.rest)
  {
    match p
    case None => Cut(b, None, None)
    case Some(s) =>
      var a := SpanEnd(b, s, delim, false);
      StillTerminated(b, s, Cleared(b, s, a), a);
      if b[a] == NUL then Cut(Cleared(b, s, a), None, None)
      else SepOf(Cleared(b, s, a), Some(a), delim)
  }

  /** An empty field leaves the rest of the work to the next call of strsep; any other one is the token. */
  lemma SepStep(b: seq<Byte>, p: Option<nat>, delim: seq<Byte>)
    requires PointsToString(b, p) && NUL !in delim
    ensures var c := SepOf(b, p, delim);
      if p.Some? && c.b[p.value] == NUL then
        && TokOf(b, p, delim) == TokOf(c.b, c.rest, delim)
        && (c.rest.Some? ==> c.rest.value == p.value + 1)
      else TokOf(b, p, delim) == c
  {
    var c := SepOf(b, p, delim);
    if p.Some? {
      var s := p.value;
      if b[s] == NUL {
        assert Cleared(b, s, s) == b;
      } else if b[s] in delim {
        assert c.b == b[s := NUL] && c.rest == Some(s + 1);
        SkipOne(b, s, delim);
      } else {
        assert Cleared(b, s, s) == b;
      }
    }
  }

  lemma SkipOne(b: seq<Byte>, s: nat, delim: seq<Byte>)
    requires Terminated(b, s) && NUL !in delim && b[s] in delim
    ensures Terminated(b[s := NUL], s + 1)
    ensures TokOf(b, Some(s), delim) == TokOf(b[s := NUL], Some(s + 1), delim)
  {
    var c := b[s := NUL];
    var z: nat :| s <= z < |b| && b[z] == NUL;
    SpansAgree(b, c, s + 1, delim, false);
    var a := SpanEnd(b, s + 1, delim, false);
    assert SpanEnd(b, s, delim, false) == a;
    ClearedOnce(b, s, a);
    hide SpanEnd, Cleared, SepOf, Terminated;
    assert c[a] == b[a];
  }

  lemma ClearedOnce(b: seq<Byte>, s: nat, a: nat)
    requires s < |b| && s < a
    ensures Cleared(b, s, a) == Cleared(b[s := NUL], s + 1, a)
  {
  }

  /** The static variable of strtok. */
  class Strtok {
    var holder: Option<nat>

    constructor ()
      ensures holder == None
    {
      holder := None;
    }

    /** strtok: s starts a new string, null goes on with the one that is held. */
    method Next(b: array<Byte>, s: Option<nat>, delim: seq<Byte>) returns (r: Option<nat>)
      requires PointsToString(b[..], if s.Some? then s else holder) && NUL !in delim
      modifies this, b
      ensures Cut(b[..], holder, r) == TokOf(old(b[..]), if s.Some? then s else old(holder), delim)
    {
      if s.Some? {
        holder := s;
      }
      ghost var all := TokOf(b[..], holder, delim);
      ghost var before := b[..];
      SepStep(before, holder, delim);
      r, holder := Strsep(b, holder, delim);
      while r.Some? && b[r.value] == NUL
        invariant PointsToString(before, r) && Cut(b[..], holder, r) == SepOf(before, r, delim)
        invariant TokOf(before, r, delim) == all
        decreases if r.Some? then b.Length - r.value + 1 else 0
      {
        hide TokOf, SepOf;
        SepStep(before, r, delim);
        before := b[..];
        r, holder := Strsep(b, holder, delim);
      }
      SepStep(before, r, delim);
    }
  }

  // ------------------------------------------------------------ whole runs

  /**
   * The pieces of the string at i: what stands between delimiters, empty pieces left out,
   * each as the indices of its first byte and of the byte after its last one.
   */
  ghost function Pieces(b: seq<Byte>, i: nat, delim: seq<Byte>): seq<(nat, nat)>
    requires Terminated(b, i) && NUL !in delim
    decreases |b| - i
  {
    var a := SpanEnd(b, i, delim, false);
    if b[a] == NUL then []
    else
      StillTerminated(b, i, b, a);
      var e := SpanEnd(b, a, delim, true);
      if b[e] == NUL then [(a, e)]
      else
        StillTerminated(b, a, b, e + 1);
        [(a, e)] + Pieces(b, e + 1, delim)
  }

  lemma PiecesHead(b: seq<Byte>, p: nat, delim: seq<Byte>)
    requires Terminated(b, p) && NUL !in delim && b[SpanEnd(b, p, delim, false)] != NUL
    ensures var a, ps := SpanEnd(b, p, delim, false), Pieces(b, p, delim);
      && Terminated(b, a) && ps != []
      && var e := SpanEnd(b, a, delim, true);
      && ps[0] == (a, e)
      && if b[e] == NUL then |ps| == 1 else Terminated(b, e + 1) && ps[1..] == Pieces(b, e + 1, delim)
  {
    var a := SpanEnd(b, p, delim, false);
    StillTerminated(b, p, b, a);
    var e := SpanEnd(b, a, delim, true);
    hide SpanEnd;
    if b[e] == NUL {
      assert Pieces(b, p, delim) == [(a, e)];
    } else {
      StillTerminated(b, a, b, e + 1);
      assert Pieces(b, p, delim) == [(a, e)] + Pieces(b, e + 1, delim);
      HeadTail((a, e), Pieces(b, e + 1, delim));
      hide Pieces, Terminated;
    }
  }

  lemma HeadTail<T>(x: T, xs: seq<T>)
    ensures ([x] + xs)[0] == x && ([x] + xs)[1..] == xs
  {
  }

  lemma NoPieces(b: seq<Byte>, p: nat, delim: seq<Byte>)
    requires Terminated(b, p) && NUL !in delim && b[SpanEnd(b, p, delim, false)] == NUL
    ensures Pieces(b, p, delim) == []
  {
  }

  /** a..e is a maximal piece without delimiters of the string i..z. */
  ghost predicate IsPiece(b: seq<Byte>, i: nat, z: nat, delim: seq<Byte>, a: nat, e: nat)
    requires i <= z < |b|
  {
    && i <= a < e <= z && (forall k :: a <= k < e ==> b[k] !in delim)
    && (a == i || b[a - 1] in delim) && (e == z || b[e] in delim)
  }

  /** z is where the string at i ends. */
  ghost predicate EndsAt(b: seq<Byte>, i: nat, z: nat) {
    i <= z < |b| && b[z] == NUL && forall k :: i <= k < z ==> b[k] != NUL
  }

  /** The pieces are exactly the maximal non-empty ranges without delimiters ... */
  lemma {:induction false} PiecesExact(b: seq<Byte>, i: nat, z: nat, delim: seq<Byte>, a: nat, e: nat)
    requires EndsAt(b, i, z) && Terminated(b, i) && NUL !in delim
    ensures (a, e) in Pieces(b, i, delim) <==> IsPiece(b, i, z, delim, a, e)
    decreases z - i
  {
    hide Pieces, SpanEnd;
    var a0 := SpanEnd(b, i, delim, false);
    if b[a0] == NUL {
      NoPieces(b, i, delim);
      assert a0 == z;
      assert i <= a < z ==> b[a] in delim;
    } else {
      PiecesHead(b, i, delim);
      var e0, ps := SpanEnd(b, a0, delim, true), Pieces(b, i, delim);
      FirstPiece(b, i, z, delim, a0, e0, a, e);
      hide IsPiece;
      FirstOrRest(ps, (a, e));
      if b[e0] != NUL {
        PiecesExact(b, e0 + 1, z, delim, a, e);
      }
    }
  }

  lemma FirstOrRest<T>(ps: seq<T>, x: T)
    requires ps != []
    ensures x in ps <==> x == ps[0] || x in ps[1..]
  {
    assert ps == [ps[0]] + ps[1..];
  }

  /** A piece is the first one or lies behind the delimiter that ends the first one. */
  lemma FirstPiece(b: seq<Byte>, i: nat, z: nat, delim: seq<Byte>, a0: nat, e0: nat, a: nat, e: nat)
    requires EndsAt(b, i, z) && Terminated(b, i) && NUL !in delim
    requires a0 == SpanEnd(b, i, delim, false) < z && Terminated(b, a0) && e0 == SpanEnd(b, a0, delim, true)
    ensures IsPiece(b, i, z, delim, a, e)
        <==> (a, e) == (a0, e0) || (e0 < z && IsPiece(b, e0 + 1, z, delim, a, e))
  {
    assert b[a0] !in delim && a0 < e0 <= z && (e0 < z ==> b[e0] in delim);
    if i <= a < e <= z {
      assert a < a0 ==> b[a] in delim;
      assert a0 < a < e0 ==> b[a - 1] !in delim;
      assert a == a0 && e < e0 ==> b[e] !in delim;
      assert a <= e0 < e ==> b[e0] in delim;
    }
  }

  ghost predicate Ordered(ps: seq<(nat, nat)>, lo: nat, hi: nat) {
    && (forall j :: 0 <= j < |ps| ==> lo <= ps[j].0 < ps[j].1 < hi)
    && (forall j, k :: 0 <= j < k < |ps| ==> ps[j].1 < ps[k].0)
  }

  lemma InOrder(rest: seq<(nat, nat)>, a: nat, e: nat, lo: nat, hi: nat)
    requires Ordered(rest, lo, hi) && a < e < lo && e < hi
    ensures Ordered([(a, e)] + rest, a, hi)
  {
    var ps := [(a, e)] + rest;
    assert forall j :: 1 <= j < |ps| ==> ps[j] == rest[j - 1];
  }

  /** ... from left to right. */
  lemma {:induction false} PiecesInOrder(b: seq<Byte>, i: nat, delim: seq<Byte>)
    requires Terminated(b, i) && NUL !in delim
    ensures Ordered(Pieces(b, i, delim), i, |b|)
    decreases |b| - i
  {
    hide SpanEnd, Pieces;
    var a := SpanEnd(b, i, delim, false);
    if b[a] == NUL {
      NoPieces(b, i, delim);
    } else {
      PiecesHead(b, i, delim);
      var e := SpanEnd(b, a, delim, true);
      var ps := Pieces(b, i, delim);
      assert i <= a < e;
      if b[e] != NUL {
        hide Terminated;
        PiecesInOrder(b, e + 1, delim);
        InOrder(ps[1..], a, e, e + 1, |b|);
        assert ps == [(a, e)] + ps[1..];
      } else {
        assert ps == [(a, e)];
      }
    }
  }

  datatype Run = Run(b: seq<Byte>, holder: Option<nat>, results: seq<Option<nat>>)

  /** n calls of strtok: the first one with pointer p, the others with null. */
  ghost function Calls(b: seq<Byte>, p: Option<nat>, delim: seq<Byte>, n: nat): (r: Run)
    requires PointsToString(b, p)
    ensures |r.results| == n
    decreases n
  {
    if n == 0 then Run(b, p, [])
    else
      var c := TokOf(b, p, delim);
      var r := Calls(c.b, c.rest, delim, n - 1);
      Run(r.b, r.holder, [c.result] + r.results)
  }

  /** Buffer b with the delimiters in i..p cleared. */
  ghost function Blanked(b: seq<Byte>, i: nat, p: nat, delim: seq<Byte>): (r: seq<Byte>)
    ensures |r| == |b|
  {
    seq(|b|, k requires 0 <= k < |b| => if i <= k < p && b[k] in delim then NUL else b[k])
  }

  /** Leading delimiters: the first byte behind them, and the buffer once they are cleared. */
  lemma LeadingCleared(b: seq<Byte>, i: nat, z: nat, delim: seq<Byte>, p: nat)
    requires EndsAt(b, i, z) && i <= p <= z && NUL !in delim
    ensures Terminated(b, p)
    ensures var w, a := Blanked(b, i, p, delim), SpanEnd(b, p, delim, false);
      && Terminated(w, p) && SpanEnd(w, p, delim, false) == a && w[a] == b[a]
      && Cleared(w, p, a) == Blanked(b, i, a, delim)
      && p <= a <= z && Terminated(b, a) && (b[a] == NUL <==> a == z)
  {
    assert b[z] == NUL;
    var w := Blanked(b, i, p, delim);
    SpansAgree(b, w, p, delim, false);
    var a := SpanEnd(b, p, delim, false);
    assert a <= z;
    assert Cleared(w, p, a) == Blanked(b, i, a, delim);
  }

  /** The piece behind them, and the buffer once it is cut off. */
  lemma PieceCut(b: seq<Byte>, i: nat, z: nat, delim: seq<Byte>, a: nat)
    requires EndsAt(b, i, z) && i <= a < z && NUL !in delim
    ensures Terminated(b, a)
    ensures var w, e := Blanked(b, i, a, delim), SpanEnd(b, a, delim, true);
      && Terminated(w, a) && SpanEnd(w, a, delim, true) == e && w[e] == b[e]
      && a <= e <= z && (b[e] == NUL <==> e == z)
      && if e == z then w == Blanked(b, i, z, delim)
         else w[e := NUL] == Blanked(b, i, e + 1, delim) && Terminated(b, e + 1)
  {
    assert b[z] == NUL;
    var w := Blanked(b, i, a, delim);
    SpansAgree(b, w, a, delim, true);
    var e := SpanEnd(b, a, delim, true);
    assert e <= z;
    if e == z {
      assert w == Blanked(b, i, z, delim);
    } else {
      assert w[e := NUL] == Blanked(b, i, e + 1, delim);
    }
  }

  /** What one call in the middle of a run does, p being where the string's rest starts. */
  ghost predicate CallDoes(b: seq<Byte>, i: nat, z: nat, delim: seq<Byte>, c: Cut, ps: seq<(nat, nat)>)
    requires NUL !in delim
  {
    if ps == [] then c == Cut(Blanked(b, i, z, delim), None, None)
    else
      var e := ps[0].1;
      if e == z then c == Cut(Blanked(b, i, z, delim), None, Some(ps[0].0)) && |ps| == 1
      else
        && e < z && Terminated(b, e + 1) && ps[1..] == Pieces(b, e + 1, delim)
        && c == Cut(Blanked(b, i, e + 1, delim), Some(e + 1), Some(ps[0].0))
  }

  lemma OneCall(b: seq<Byte>, i: nat, z: nat, delim: seq<Byte>, p: nat)
    requires EndsAt(b, i, z) && i <= p <= z && NUL !in delim
    ensures Terminated(b, p) && Terminated(Blanked(b, i, p, delim), p)
    ensures CallDoes(b, i, z, delim, TokOf(Blanked(b, i, p, delim), Some(p), delim), Pieces(b, p, delim))
  {
    hide SpanEnd, Blanked, Cleared, EndsAt, Terminated, Pieces, TokOf, SepOf;
    LeadingCleared(b, i, z, delim, p);
    TokAt(Blanked(b, i, p, delim), p, delim);
    var a := SpanEnd(b, p, delim, false);
    if a < z {
      PieceCut(b, i, z, delim, a);
      PiecesHead(b, p, delim);
      SepAt(Blanked(b, i, a, delim), a, delim);
    } else {
      NoPieces(b, p, delim);
    }
  }

  lemma TokAt(b: seq<Byte>, s: nat, delim: seq<Byte>)
    requires Terminated(b, s)
    ensures var a := SpanEnd(b, s, delim, false);
      && Terminated(Cleared(b, s, a), a)
      && TokOf(b, Some(s), delim)
         == if b[a] == NUL then Cut(Cleared(b, s, a), None, None) else SepOf(Cleared(b, s, a), Some(a), delim)
  {
    var a := SpanEnd(b, s, delim, false);
    StillTerminated(b, s, Cleared(b, s, a), a);
  }

  lemma SepAt(b: seq<Byte>, s: nat, delim: seq<Byte>)
    requires Terminated(b, s)
    ensures var e := SpanEnd(b, s, delim, true);
      SepOf(b, Some(s), delim)
      == if b[e] == NUL then Cut(b, None, Some(s)) else Cut(b[e := NUL], Some(e + 1), Some(s))
  {
  }

  /** The pieces from left to right, then null for ever. */
  function Results(ps: seq<(nat, nat)>, n: nat): (r: seq<Option<nat>>)
    ensures |r| == n
  {
    seq(n, j requires 0 <= j < n => if j < |ps| then Some(ps[j].0) else None)
  }

  lemma {:induction false} NullForever(b: seq<Byte>, delim: seq<Byte>, n: nat)
    ensures var r := Calls(b, None, delim, n); r.b == b && r.results == Results([], n)
  {
    if n > 0 {
      NullForever(b, delim, n - 1);
      assert [None] + Results([], n - 1) == Results([], n);
    }
  }

  lemma ResultsStep(ps: seq<(nat, nat)>, n: nat)
    requires n > 0 && ps != []
    ensures [Some(ps[0].0)] + Results(ps[1..], n - 1) == Results(ps, n)
  {
    var r := [Some(ps[0].0)] + Results(ps[1..], n - 1);
    forall j | 0 <= j < n ensures r[j] == Results(ps, n)[j] {
      if j > 0 && j < |ps| {
        assert ps[1..][j - 1] == ps[j];
      }
    }
  }

  /** Up to where n calls have cleared delimiters. */
  function DoneUpTo(ps: seq<(nat, nat)>, p: nat, z: nat, n: nat): nat {
    if n == 0 then p else if n > |ps| || ps[n - 1].1 >= z then z else ps[n - 1].1 + 1
  }

  lemma DoneStep(ps: seq<(nat, nat)>, p: nat, z: nat, n: nat)
    requires n > 0 && ps != [] && ps[0].1 < z
    ensures DoneUpTo(ps, p, z, n) == DoneUpTo(ps[1..], ps[0].1 + 1, z, n - 1)
  {
    if 1 < n <= |ps| {
      assert ps[1..][n - 2] == ps[n - 1];
    }
  }

  /** n calls on a string whose rest starts at p, everything before it being done. */
  ghost predicate RunDoes(b: seq<Byte>, i: nat, z: nat, delim: seq<Byte>, p: nat, n: nat, r: Run, ps: seq<(nat, nat)>) {
    r.results == Results(ps, n) && r.b == Blanked(b, i, DoneUpTo(ps, p, z, n), delim)
  }

  lemma {:induction false} RunFrom(b: seq<Byte>, i: nat, z: nat, delim: seq<Byte>, p: nat, n: nat)
    requires EndsAt(b, i, z) && i <= p <= z && NUL !in delim
    requires Terminated(b, p) && Terminated(Blanked(b, i, p, delim), p)
    ensures RunDoes(b, i, z, delim, p, n, Calls(Blanked(b, i, p, delim), Some(p), delim, n), Pieces(b, p, delim))
    decreases n
  {
    if n > 0 {
      OneCall(b, i, z, delim, p);
      var w, ps := Blanked(b, i, p, delim), Pieces(b, p, delim);
      var c := TokOf(w, Some(p), delim);
      hide TokOf, Pieces, Blanked, EndsAt, Results, DoneUpTo, Calls, RunDoes, SpanEnd;
      if c.rest == None {
        NullForever(c.b, delim, n - 1);
        EndOfRun(b, i, z, delim, p, n, c, ps);
      } else {
        var e := ps[0].1;
        RunFrom(b, i, z, delim, e + 1, n - 1);
        RestOfRun(b, i, z, delim, p, n, c, ps);
      }
    }
  }

  lemma EndOfRun(b: seq<Byte>, i: nat, z: nat, delim: seq<Byte>, p: nat, n: nat, c: Cut, ps: seq<(nat, nat)>)
    requires n > 0 && NUL !in delim && CallDoes(b, i, z, delim, c, ps) && c.rest == None
    requires Terminated(Blanked(b, i, p, delim), p) && c == TokOf(Blanked(b, i, p, delim), Some(p), delim)
    ensures RunDoes(b, i, z, delim, p, n, Calls(Blanked(b, i, p, delim), Some(p), delim, n), ps)
  {
    CallsStep(Blanked(b, i, p, delim), Some(p), delim, n);
    LastCall(ps, p, z, n);
    hide TokOf, Pieces, Blanked, Results, DoneUpTo, Calls;
    NullForever(c.b, delim, n - 1);
  }

  lemma RestOfRun(b: seq<Byte>, i: nat, z: nat, delim: seq<Byte>, p: nat, n: nat, c: Cut, ps: seq<(nat, nat)>)
    requires n > 0 && NUL !in delim && CallDoes(b, i, z, delim, c, ps) && c.rest.Some?
    requires Terminated(Blanked(b, i, p, delim), p) && c == TokOf(Blanked(b, i, p, delim), Some(p), delim)
    requires RunDoes(b, i, z, delim, ps[0].1 + 1, n - 1, Calls(c.b, c.rest, delim, n - 1), ps[1..])
    ensures RunDoes(b, i, z, delim, p, n, Calls(Blanked(b, i, p, delim), Some(p), delim, n), ps)
  {
    hide TokOf, Pieces, Blanked, Results, DoneUpTo, Calls;
    CallsStep(Blanked(b, i, p, delim), Some(p), delim, n);
    ResultsStep(ps, n);
    DoneStep(ps, p, z, n);
  }

  lemma CallsStep(b: seq<Byte>, p: Option<nat>, delim: seq<Byte>, n: nat)
    requires PointsToString(b, p) && n > 0
    ensures var c, r := TokOf(b, p, delim), Calls(b, p, delim, n);
      var r' := Calls(c.b, c.rest, delim, n - 1);
      r.b == r'.b && r.results == [c.result] + r'.results
  {
    hide TokOf;
  }

  lemma LastCall(ps: seq<(nat, nat)>, p: nat, z: nat, n: nat)
    requires n > 0 && (ps == [] || (|ps| == 1 && ps[0].1 == z))
    ensures [if ps == [] then None else Some(ps[0].0)] + Results([], n - 1) == Results(ps, n)
    ensures DoneUpTo(ps, p, z, n) == z
  {
  }

  /**
   * strtok over a whole run: the calls return the pieces from left to right and null ever after;
   * each returned pointer is a NUL-terminated copy of its piece, also when the run is over;
   * nothing but delimiters of the string is changed, and in the end all of them are cleared.
   */
  lemma TokensOfRun(b: seq<Byte>, s: nat, z: nat, delim: seq<Byte>, n: nat)
    requires EndsAt(b, s, z) && NUL !in delim
    ensures Terminated(b, s)
    ensures var r, ps := Calls(b, Some(s), delim, n), Pieces(b, s, delim);
      && |r.b| == |b|
      && (forall j :: 0 <= j < n ==> r.results[j] == if j < |ps| then Some(ps[j].0) else None)
      && (forall j :: 0 <= j < |ps| && j < n ==>
            EndsAt(r.b, ps[j].0, ps[j].1) && ps[j].1 <= z && r.b[ps[j].0..ps[j].1] == b[ps[j].0..ps[j].1])
      && (forall k :: 0 <= k < |b| ==> r.b[k] == b[k] || (s <= k < z && b[k] in delim && r.b[k] == NUL))
      && (n > |ps| ==> forall k :: s <= k < z && b[k] in delim ==> r.b[k] == NUL)
  {
    assert b[z] == NUL;
    assert Blanked(b, s, s, delim) == b;
    RunFrom(b, s, z, delim, s, n);
    var r, ps := Calls(b, Some(s), delim, n), Pieces(b, s, delim);
    hide Calls, Pieces, SpanEnd;
    PiecesInOrder(b, s, delim);
    forall j | 0 <= j < |ps| ensures IsPiece(b, s, z, delim, ps[j].0, ps[j].1) {
      assert ps[j] in ps;
      PiecesExact(b, s, z, delim, ps[j].0, ps[j].1);
    }
    forall j | 0 <= j < |ps| && j < n
      ensures EndsAt(r.b, ps[j].0, ps[j].1) && ps[j].1 <= z && r.b[ps[j].0..ps[j].1] == b[ps[j].0..ps[j].1]
    {
      hide Terminated, Results;
      DonePast(ps, s, z, n, j);
      TokenStays(b, s, z, delim, DoneUpTo(ps, s, z, n), ps[j].0, ps[j].1);
    }
    hide IsPiece, EndsAt, Ordered, Terminated;
  }

  lemma DonePast(ps: seq<(nat, nat)>, p: nat, z: nat, n: nat, j: nat)
    requires j < |ps| && j < n && Ordered(ps, p, z + 1)
    ensures ps[j].1 < DoneUpTo(ps, p, z, n) || ps[j].1 == z
  {
  }

  /** A token that has been cut off keeps its bytes and its NUL. */
  lemma TokenStays(b: seq<Byte>, s: nat, z: nat, delim: seq<Byte>, q: nat, a: nat, e: nat)
    requires EndsAt(b, s, z) && IsPiece(b, s, z, delim, a, e) && (e < q || e == z)
    ensures EndsAt(Blanked(b, s, q, delim), a, e) && Blanked(b, s, q, delim)[a..e] == b[a..e]
  {
    var w := Blanked(b, s, q, delim);
    assert forall k :: a <= k < e ==> w[k] == b[k];
  }
}
