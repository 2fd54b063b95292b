/** strtok of section 7.24.5.8 of ISO C11, and on which strings the code agrees with it. */
module IsoStrtok {
  import opened Fifo
  import opened Tokens

  // ------------------------------------------------------------ the standard

  /** Only the delimiter that ends the token becomes a NUL; those in front of it stay. */
  ghost function StdTokOf(b: seq<Byte>, p: Option<nat>, delim: seq<Byte>): (c: Cut)
    requires PointsToString(b, p)
    ensures |c.b| == |b| && PointsToString(c.b, c.rest)
  {
    match p
    case None => Cut(b, None, None)
    case Some(s) =>
      var a := SpanEnd(b, s, delim, false);
      StillTerminated(b, s, b, a);
      if b[a] == NUL then Cut(b, None, None) else SepOf(b, Some(a), delim)
  }

  ghost function StdCalls(b: seq<Byte>, p: Option<nat>, delim: seq<Byte>, n: nat): (r: Run)
    requires PointsToString(b, p)
    ensures |r.results| == n
    decreases n
  {
    if n == 0 then Run(b, p, [])
    else
      var c := StdTokOf(b, p, delim);
      var r := StdCalls(c.b, c.rest, delim, n - 1);
      Run(r.b, r.holder, [c.result] + r.results)
  }

  // ------------------------------------------------------------ one call

  /** One call does what the standard says if and only if the string does not start with a delimiter. */
  lemma OneCallAgrees(b: seq<Byte>, s: nat, delim: seq<Byte>)
    requires Terminated(b, s) && NUL !in delim
    ensures TokOf(b, Some(s), delim) == StdTokOf(b, Some(s), delim) <==> b[s] !in delim
    ensures TokOf(b, Some(s), delim).result == StdTokOf(b, Some(s), delim).result
    ensures TokOf(b, Some(s), delim).rest == StdTokOf(b, Some(s), delim).rest
  {
    TokAt(b, s, delim);
    var a := SpanEnd(b, s, delim, false);
    StillTerminated(b, s, b, a);
    if b[s] !in delim {
      assert a == s && Cleared(b, s, s) == b;
    } else {
      SpansAgree(b, Cleared(b, s, a), a, delim, true);
      var e := SpanEnd(b, a, delim, true);
      assert a > s && Cleared(b, s, a)[s] == NUL != b[s];
      hide Cleared, SpanEnd;
      if b[a] != NUL {
        SepAt(b, a, delim);
        SepAt(Cleared(b, s, a), a, delim);
        assert e >= a && b[e := NUL][s] == b[s];
      }
    }
  }

  /** A delimiter in front of the token: the code clears it, the standard leaves it. */
  lemma LeadingDelimiter()
    ensures var b: seq<Byte> := [',', 'x', NUL];
      && Terminated(b, 0)
      && TokOf(b, Some(0), [',']) == Cut([NUL, 'x', NUL], None, Some(1))
      && StdTokOf(b, Some(0), [',']) == Cut(b, None, Some(1))
  {
    var b: seq<Byte> := [',', 'x', NUL];
    assert b[2] == NUL;
    SpanEndIs(b, 0, [','], false, 1);
    StillTerminated(b, 0, b, 1);
    var c := Cleared(b, 0, 1);
    assert c == [NUL, 'x', NUL];
    StillTerminated(b, 0, c, 1);
    SpanEndIs(b, 1, [','], true, 2);
    SpanEndIs(c, 1, [','], true, 2);
  }

  // ------------------------------------------------------------ the standard over a run

  lemma {:induction false} PiecesAgree(b: seq<Byte>, c: seq<Byte>, i: nat, delim: seq<Byte>)
    requires Terminated(b, i) && |c| == |b| && (forall k :: i <= k < |b| ==> c[k] == b[k]) && NUL !in delim
    ensures Terminated(c, i) && Pieces(c, i, delim) == Pieces(b, i, delim)
    decreases |b| - i
  {
    hide Pieces, SpanEnd;
    SpansAgree(b, c, i, delim, false);
    var a := SpanEnd(b, i, delim, false);
    if b[a] == NUL {
      NoPieces(b, i, delim);
      NoPieces(c, i, delim);
    } else {
      PiecesHead(b, i, delim);
      PiecesHead(c, i, delim);
      SpansAgree(b, c, a, delim, true);
      var e := SpanEnd(b, a, delim, true);
      if b[e] != NUL {
        PiecesAgree(b, c, e + 1, delim);
      }
      hide *;
      HeadAndRest(Pieces(b, i, delim), Pieces(c, i, delim));
    }
  }

  lemma HeadAndRest<T>(xs: seq<T>, ys: seq<T>)
    requires xs != [] && ys != [] && xs[0] == ys[0]
    requires xs[1..] == ys[1..] || |xs| == |ys| == 1
    ensures xs == ys
  {
    assert xs == [xs[0]] + xs[1..] && ys == [ys[0]] + ys[1..];
  }

  /** Index k is the end of one of the first n pieces. */
  ghost predicate Ends(ps: seq<(nat, nat)>, n: nat, k: nat) {
    exists j :: 0 <= j < n && j < |ps| && ps[j].1 == k
  }

  /** Buffer b with a NUL behind each of the first n pieces. */
  ghost function Ended(b: seq<Byte>, ps: seq<(nat, nat)>, n: nat): (r: seq<Byte>)
    ensures |r| == |b|
  {
    seq(|b|, k requires 0 <= k < |b| => if Ends(ps, n, k) then NUL else b[k])
  }

  lemma EndsStep(ps: seq<(nat, nat)>, n: nat, k: nat)
    requires n > 0 && ps != []
    ensures Ends(ps, n, k) <==> k == ps[0].1 || Ends(ps[1..], n - 1, k)
  {
    if Ends(ps, n, k) && k != ps[0].1 {
      var j :| 0 <= j < n && j < |ps| && ps[j].1 == k;
      assert ps[1..][j - 1].1 == k;
    }
    if Ends(ps[1..], n - 1, k) {
      var j :| 0 <= j < n - 1 && j < |ps[1..]| && ps[1..][j].1 == k;
      assert ps[j + 1].1 == k;
    }
  }

  lemma EndedStep(b: seq<Byte>, ps: seq<(nat, nat)>, n: nat)
    requires n > 0 && ps != [] && ps[0].1 < |b|
    ensures Ended(b[ps[0].1 := NUL], ps[1..], n - 1) == Ended(b, ps, n)
  {
    forall k | 0 <= k < |b| ensures Ended(b[ps[0].1 := NUL], ps[1..], n - 1)[k] == Ended(b, ps, n)[k] {
      EndsStep(ps, n, k);
    }
  }

  lemma {:induction false} StdNullForever(b: seq<Byte>, delim: seq<Byte>, n: nat)
    ensures var r := StdCalls(b, None, delim, n); r.b == b && r.results == Results([], n)
  {
    if n > 0 {
      StdNullForever(b, delim, n - 1);
      assert [None] + Results([], n - 1) == Results([], n);
    }
  }

  lemma StdTokAt(b: seq<Byte>, s: nat, delim: seq<Byte>)
    requires Terminated(b, s)
    ensures var a := SpanEnd(b, s, delim, false);
      && Terminated(b, a)
      && var e := SpanEnd(b, a, delim, true);
      StdTokOf(b, Some(s), delim)
      == if b[a] == NUL then Cut(b, None, None)
         else if b[e] == NUL then Cut(b, None, Some(a))
         else Cut(b[e := NUL], Some(e + 1), Some(a))
  {
    StillTerminated(b, s, b, SpanEnd(b, s, delim, false));
  }

  /** What a call of the standard does, ps being the pieces that are left. */
  ghost predicate StdDoes(b: seq<Byte>, delim: seq<Byte>, c: Cut, ps: seq<(nat, nat)>)
    requires NUL !in delim
  {
    if ps == [] then c == Cut(b, None, None)
    else
      && ps[0].1 < |b| && c.result == Some(ps[0].0) && c.b == b[ps[0].1 := NUL]
      && if c.rest == None then |ps| == 1
         else Terminated(c.b, c.rest.value) && ps[1..] == Pieces(c.b, c.rest.value, delim)
  }

  lemma StdOneCall(b: seq<Byte>, s: nat, delim: seq<Byte>)
    requires Terminated(b, s) && NUL !in delim
    ensures StdDoes(b, delim, StdTokOf(b, Some(s), delim), Pieces(b, s, delim))
  {
    StdTokAt(b, s, delim);
    if b[SpanEnd(b, s, delim, false)] == NUL {
      hide StdTokOf, SpanEnd, Pieces, Terminated;
      NoPieces(b, s, delim);
    } else {
      hide StdTokOf, SpanEnd, Pieces, Terminated, StdDoes;
      StdCut(b, s, delim);
    }
  }

  lemma StdCut(b: seq<Byte>, s: nat, delim: seq<Byte>)
    requires Terminated(b, s) && NUL !in delim && b[SpanEnd(b, s, delim, false)] != NUL
    ensures StdDoes(b, delim, StdTokOf(b, Some(s), delim), Pieces(b, s, delim))
  {
    hide StdTokOf, SpanEnd, Pieces, Terminated, StdDoes;
    var a := SpanEnd(b, s, delim, false);
    StdTokAt(b, s, delim);
    PiecesHead(b, s, delim);
    var e := SpanEnd(b, a, delim, true);
    hide *;
    if b[e] != NUL {
      PiecesBehind(b, e, delim);
    }
    CutDoes(b, a, e, delim, StdTokOf(b, Some(s), delim), Pieces(b, s, delim));
  }

  lemma PiecesBehind(b: seq<Byte>, e: nat, delim: seq<Byte>)
    requires e < |b| && Terminated(b, e + 1) && NUL !in delim
    ensures Terminated(b[e := NUL], e + 1) && Pieces(b[e := NUL], e + 1, delim) == Pieces(b, e + 1, delim)
  {
    PiecesAgree(b, b[e := NUL], e + 1, delim);
  }

  lemma CutDoes(b: seq<Byte>, a: nat, e: nat, delim: seq<Byte>, c: Cut, ps: seq<(nat, nat)>)
    requires e < |b| && NUL !in delim && ps != [] && ps[0] == (a, e)
    requires if b[e] == NUL then |ps| == 1 && c == Cut(b, None, Some(a))
             else
               && Terminated(b[e := NUL], e + 1) && ps[1..] == Pieces(b[e := NUL], e + 1, delim)
               && c == Cut(b[e := NUL], Some(e + 1), Some(a))
    ensures StdDoes(b, delim, c, ps)
  {
    hide Pieces, Terminated;
    assert b[e] == NUL ==> b[e := NUL] == b;
  }

  /** The standard's n calls return the pieces, too, and put a NUL behind each. */
  lemma {:induction false} StdRun(b: seq<Byte>, s: nat, delim: seq<Byte>, n: nat)
    requires Terminated(b, s) && NUL !in delim
    ensures var r, ps := StdCalls(b, Some(s), delim, n), Pieces(b, s, delim);
      r.results == Results(ps, n) && r.b == Ended(b, ps, n)
    decreases n
  {
    var ps := Pieces(b, s, delim);
    if n == 0 {
      assert Ended(b, ps, 0) == b;
    } else {
      StdOneCall(b, s, delim);
      var c := StdTokOf(b, Some(s), delim);
      hide StdTokOf, Pieces, SpanEnd, Results, Ended;
      if c.rest == None {
        StdNullForever(c.b, delim, n - 1);
        StdLast(b, ps, n);
      } else {
        StdRun(c.b, c.rest.value, delim, n - 1);
        EndedStep(b, ps, n);
      }
      if ps != [] {
        ResultsStep(ps, n);
      }
    }
  }

  lemma StdLast(b: seq<Byte>, ps: seq<(nat, nat)>, n: nat)
    requires n > 0 && |ps| <= 1 && (ps != [] ==> ps[0].1 < |b|)
    ensures Ended(b, ps, n) == if ps == [] then b else b[ps[0].1 := NUL]
    ensures ps == [] ==> [None] + Results([], n - 1) == Results(ps, n)
    ensures ps != [] ==> ps[1..] == []
  {
    assert ps == [] ==> forall k :: !Ends(ps, n, k);
    assert ps != [] ==> Ends(ps, n, ps[0].1);
  }

  // ------------------------------------------------------------ where the code agrees over a run

  /** A delimiter in k that follows a byte of the string that is none. */
  predicate EndsAPiece(b: seq<Byte>, s: nat, delim: seq<Byte>, k: nat) {
    s < k < |b| && b[k - 1] !in delim
  }

  /** Wherever a delimiter follows other bytes a piece ends. */
  lemma {:induction false} PieceBehind(b: seq<Byte>, s: nat, z: nat, delim: seq<Byte>, k: nat) returns (a: nat)
    requires EndsAt(b, s, z) && s < k < z && b[k] in delim && b[k - 1] !in delim
    ensures IsPiece(b, s, z, delim, a, k)
  {
    a := k - 1;
    while a > s && b[a - 1] !in delim
      invariant s <= a < k && forall i :: a <= i < k ==> b[i] !in delim
    {
      a := a - 1;
    }
  }

  lemma PiecesUpToEnd(b: seq<Byte>, s: nat, z: nat, delim: seq<Byte>)
    requires EndsAt(b, s, z) && Terminated(b, s) && NUL !in delim
    ensures Ordered(Pieces(b, s, delim), s, z + 1)
  {
    var ps := Pieces(b, s, delim);
    PiecesInOrder(b, s, delim);
    hide Pieces;
    forall i | 0 <= i < |ps| ensures ps[i].1 <= z {
      assert ps[i] in ps;
      PiecesExact(b, s, z, delim, ps[i].0, ps[i].1);
    }
  }

  lemma NotYetDone(ps: seq<(nat, nat)>, p: nat, z: nat, n: nat, j: nat)
    requires j < |ps| && Ordered(ps, p, z + 1) && ps[j].1 <= z
    ensures j >= n ==> DoneUpTo(ps, p, z, n) <= ps[j].1
  {
    assert 0 < n <= j ==> ps[n - 1].1 < ps[j].0;
  }

  /** The delimiters behind which the first n calls have gone: exactly those that end a piece end one of the first n. */
  lemma EndsExactly(b: seq<Byte>, s: nat, z: nat, delim: seq<Byte>, n: nat, k: nat)
    requires EndsAt(b, s, z) && Terminated(b, s) && NUL !in delim
    requires var ps := Pieces(b, s, delim); s <= k < DoneUpTo(ps, s, z, n) && k < z && b[k] in delim
    ensures Ends(Pieces(b, s, delim), n, k) <==> EndsAPiece(b, s, delim, k)
  {
    var ps := Pieces(b, s, delim);
    PiecesUpToEnd(b, s, z, delim);
    hide Pieces;
    if Ends(ps, n, k) {
      var j :| 0 <= j < n && j < |ps| && ps[j].1 == k;
      assert ps[j] in ps;
      PiecesExact(b, s, z, delim, ps[j].0, ps[j].1);
    }
    if EndsAPiece(b, s, delim, k) {
      var a := PieceBehind(b, s, z, delim, k);
      PiecesExact(b, s, z, delim, a, k);
      var j :| 0 <= j < |ps| && ps[j] == (a, k);
      NotYetDone(ps, s, z, n, j);
    }
  }

  /** A piece ends at a delimiter that is cleared, or where the string ends. */
  lemma EndsInside(b: seq<Byte>, s: nat, z: nat, delim: seq<Byte>, n: nat, k: nat)
    requires EndsAt(b, s, z) && Terminated(b, s) && NUL !in delim && Ends(Pieces(b, s, delim), n, k)
    ensures k == z || (s <= k < z && k < DoneUpTo(Pieces(b, s, delim), s, z, n) && b[k] in delim)
  {
    var ps := Pieces(b, s, delim);
    PiecesUpToEnd(b, s, z, delim);
    hide Pieces;
    var j :| 0 <= j < n && j < |ps| && ps[j].1 == k;
    assert ps[j] in ps;
    PiecesExact(b, s, z, delim, ps[j].0, ps[j].1);
    DonePast(ps, s, z, n, j);
  }

  /** Of the bytes that n calls have gone over, every delimiter comes directly behind a token. */
  ghost predicate SingleDelimiters(b: seq<Byte>, s: nat, z: nat, delim: seq<Byte>, n: nat)
    requires Terminated(b, s) && NUL !in delim
  {
    forall k :: s <= k < DoneUpTo(Pieces(b, s, delim), s, z, n) && k < z && k < |b| && b[k] in delim ==>
      EndsAPiece(b, s, delim, k)
  }

  /**
   * Over n calls the code returns what the standard says, always. It leaves the same buffer if and only if the
   * part of the string that was gone over neither starts with a delimiter nor has two next to each other.
   */
  lemma RunAgrees(b: seq<Byte>, s: nat, z: nat, delim: seq<Byte>, n: nat)
    requires EndsAt(b, s, z) && NUL !in delim
    ensures Terminated(b, s)
    ensures Calls(b, Some(s), delim, n).results == StdCalls(b, Some(s), delim, n).results
    ensures Calls(b, Some(s), delim, n).b == StdCalls(b, Some(s), delim, n).b
       <==> SingleDelimiters(b, s, z, delim, n)
  {
    assert b[z] == NUL;
    assert Blanked(b, s, s, delim) == b;
    RunFrom(b, s, z, delim, s, n);
    StdRun(b, s, delim, n);
    var ps := Pieces(b, s, delim);
    var q := DoneUpTo(ps, s, z, n);
    forall k: nat | k < |b| && !(s <= k < q && k < z && b[k] in delim)
      ensures Ended(b, ps, n)[k] == b[k] == Blanked(b, s, q, delim)[k]
    {
      if Ends(ps, n, k) {
        EndsInside(b, s, z, delim, n, k);
      }
      assert s <= z <= k ==> k == z || k >= q;
    }
    forall k: nat | s <= k < q && k < z && b[k] in delim
      ensures Blanked(b, s, q, delim)[k] == NUL != b[k]
      ensures Ended(b, ps, n)[k] == NUL <==> EndsAPiece(b, s, delim, k)
    {
      EndsExactly(b, s, z, delim, n, k);
    }
    hide Pieces, Calls, StdCalls;
  }
}
