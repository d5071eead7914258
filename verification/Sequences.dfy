/** Equations between slices and concatenations, each proved away from any other context. */
module Sequences {

  /** n copies of x. */
  function Fill<T>(n: nat, x: T): (s: seq<T>)
    ensures |s| == n && forall k | 0 <= k < n :: s[k] == x
  {
    seq(n, _ => x)
  }

  lemma FillGrows<T>(s: seq<T>, x: T, n: nat)
    ensures (s + [x]) + Fill(n, x) == s + Fill(n + 1, x)
    ensures (s + []) + Fill(n, x) == s + Fill(n, x)
  {
  }

  lemma ConcatAssoc<T>(a: seq<T>, b: seq<T>, c: seq<T>)
    ensures a + (b + c) == (a + b) + c
  {
  }

  lemma SplitLast<T>(p: seq<T>)
    requires p != []
    ensures p == p[..|p| - 1] + [p[|p| - 1]]
  {
  }

  /** Taking everything but a last element that was appended. */
  lemma InitOfAppended<T>(p: seq<T>, x: T)
    ensures (p + [x])[..|p|] == p && (p + [x])[|p|] == x && |p + [x]| == |p| + 1
  {
  }

  /** Everything but the last of a concatenation. */
  lemma InitOfConcat<T>(a: seq<T>, p: seq<T>)
    requires p != []
    ensures (a + p)[..|a + p| - 1] == a + p[..|p| - 1] && (a + p)[|a + p| - 1] == p[|p| - 1]
  {
  }

  lemma RestOfConcat<T>(a: seq<T>, b: seq<T>)
    requires a != []
    ensures (a + b)[1..] == a[1..] + b && (a + b)[0] == a[0]
  {
  }

  lemma EmptyConcat<T>(a: seq<T>)
    ensures [] + a == a && a + [] == a
  {
  }

  /** A slice cut in two. */
  lemma SplitSlice<T>(s: seq<T>, i: nat, j: nat, k: nat)
    requires i <= j <= k <= |s|
    ensures s[i..k] == s[i..j] + s[j..k]
  {
  }

  lemma SplitPrefix<T>(s: seq<T>, j: nat, k: nat)
    requires j <= k <= |s|
    ensures s[..k] == s[..j] + s[j..k]
  {
  }

  lemma TakeTake<T>(s: seq<T>, i: nat, j: nat)
    requires i <= j <= |s|
    ensures s[..j][..i] == s[..i]
  {
  }

  lemma DropFirst<T>(s: seq<T>, k: nat)
    requires 1 <= k <= |s|
    ensures s[1..][k - 1..] == s[k..]
  {
  }

  /** A stretch of a sequence that lies inside a prefix. */
  lemma SliceOfPrefix<T>(p: seq<T>, s: seq<T>, i: nat, j: nat)
    requires i <= j <= |p| && p <= s
    ensures s[i..j] == p[i..j]
  {
  }

  lemma SliceAt<T>(s: seq<T>, i: nat, j: nat, k: nat)
    requires i <= k < j <= |s|
    ensures s[i..j][k - i] == s[k]
  {
  }

  /** A stretch of a stretch. */
  lemma SliceOfSlice<T>(s: seq<T>, i: nat, k: nat, a: nat, b: nat)
    requires i <= k <= |s| && a <= b <= k - i
    ensures s[i..k][a..b] == s[i + a..i + b]
  {
    var m := s[i..k];
    forall j | 0 <= j < b - a ensures m[a..b][j] == s[i + a..i + b][j] {
      assert m[a + j] == s[i + a + j];
    }
  }

  /** A change between p and q leaves what lies before and behind. */
  lemma ChangeWithin<T>(was: seq<T>, after: seq<T>, p: nat, q: nat)
    requires p <= q <= |was| == |after|
    requires forall k | 0 <= k < |was| && !(p <= k < q) :: after[k] == was[k]
    ensures after[..p] == was[..p] && after[q..] == was[q..]
  {
  }

  lemma DropMore<T>(a: seq<T>, b: seq<T>, p: nat, q: nat)
    requires p <= q <= |a| == |b| && a[p..] == b[p..]
    ensures a[q..] == b[q..]
  {
    SliceOfSlice(a, p, |a|, q - p, |a| - p);
    SliceOfSlice(b, p, |b|, q - p, |b| - p);
  }
}
