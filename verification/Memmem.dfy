/** The "Not So Naive" substring search of etc/yuserlib/common/memmem.c. A char stands for a byte. */
module Memmem {
  import opened Fifo

  /** Needle x stands at offset j of haystack y. */
  ghost predicate MatchAt(y: string, x: string, j: nat) {
    j + |x| <= |y| && y[j..j + |x|] == x
  }

  ghost predicate NoMatchBefore(y: string, x: string, j: nat) {
    forall i: nat :: i < j ==> !MatchAt(y, x, i)
  }

  /** The skip after the second characters differ and the one after a failed comparison. */
  function Skips(x: string): (kl: (nat, nat))
    requires |x| >= 2
  {
    if x[0] == x[1] then (2, 1) else (1, 2)
  }

  lemma MatchHeads(y: string, x: string, j: nat)
    requires |x| >= 2 && MatchAt(y, x, j)
    ensures y[j] == x[0] && y[j + 1] == x[1]
  {
    assert y[j..j + |x|][0] == x[0] && y[j..j + |x|][1] == x[1];
  }

  /** No match is jumped over, by the skip k ... */
  lemma SkipPastMismatch(y: string, x: string, j: nat)
    requires 2 <= |x| && j + |x| <= |y| && x[1] != y[j + 1] && NoMatchBefore(y, x, j)
    ensures NoMatchBefore(y, x, j + Skips(x).0)
  {
    forall i: nat | i < j + Skips(x).0 ensures !MatchAt(y, x, i) {
      if i >= j && MatchAt(y, x, i) {
        MatchHeads(y, x, i);
      }
    }
  }

  /** ... nor by the skip l, which goes by two when the two heads of the needle differ. */
  lemma SkipPastFailure(y: string, x: string, j: nat)
    requires 2 <= |x| && j + |x| <= |y| && x[1] == y[j + 1] && !MatchAt(y, x, j) && NoMatchBefore(y, x, j)
    ensures NoMatchBefore(y, x, j + Skips(x).1)
  {
    forall i: nat | i < j + Skips(x).1 ensures !MatchAt(y, x, i) {
      if i > j && MatchAt(y, x, i) {
        MatchHeads(y, x, i);
      }
    }
  }

  lemma MatchInParts(y: string, x: string, j: nat)
    requires 2 <= |x| && j + |x| <= |y|
    ensures MatchAt(y, x, j) <==> x[0] == y[j] && x[1] == y[j + 1] && x[2..] == y[j + 2..j + |x|]
  {
    var w := y[j..j + |x|];
    assert w == [y[j], y[j + 1]] + y[j + 2..j + |x|];
    assert x == [x[0], x[1]] + x[2..];
  }

  /** memcmp, as far as equality goes: two blocks of the same size. */
  method SameBytes(a: string, b: string, n: nat) returns (same: bool)
    requires n <= |a| && n <= |b|
    ensures same <==> a[..n] == b[..n]
  {
    var i := 0;
    while i < n
      invariant 0 <= i <= n && a[..i] == b[..i]
    {
      if a[i] != b[i] {
        assert a[..n][i] != b[..n][i];
        return false;
      }
      i := i + 1;
    }
    return true;
  }

  /**
   * The first occurrence of the needle, or none exactly when it does not occur.
   * An empty needle is never found, which differs from what is usual for memmem.
   */
  method Memmem(haystack: string, needle: string) returns (r: Option<nat>)
    ensures needle == "" ==> r == None
    ensures r.Some? ==> MatchAt(haystack, needle, r.value) && NoMatchBefore(haystack, needle, r.value)
    ensures needle != "" && r == None ==> forall j: nat :: !MatchAt(haystack, needle, j)
  {
    var x, n, m := needle, |haystack|, |needle|;
    if m > n || m == 0 || n == 0 {
      return None;
    }
    if m != 1 {
      var k, l;
      if x[0] == x[1] {
        k, l := 2, 1;
      } else {
        k, l := 1, 2;
      }
      var j := 0;
      while j <= n - m
        invariant NoMatchBefore(haystack, x, j)
        decreases n - j
      {
        if x[1] != haystack[j + 1] {
          SkipPastMismatch(haystack, x, j);
          j := j + k;
        } else {
          var same := SameBytes(x[2..], haystack[j + 2..], m - 2);
          assert x[2..][..m - 2] == x[2..] && haystack[j + 2..][..m - 2] == haystack[j + 2..j + m];
          MatchInParts(haystack, x, j);
          if same && x[0] == haystack[j] {
            return Some(j);
          }
          SkipPastFailure(haystack, x, j);
          j := j + l;
        }
      }
    } else {
      var y := 0;
      while true
        invariant n == |haystack| - y && n > 0 && NoMatchBefore(haystack, x, y)
        decreases n
      {
        if haystack[y] == x[0] {
          assert haystack[y..y + 1] == x;
          return Some(y);
        }
        assert haystack[y..y + 1][0] == haystack[y];
        y := y + 1;
        n := n - 1;
        if n == 0 {
          break;
        }
      }
    }
    return None;
  }
}
