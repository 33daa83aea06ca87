/** Why the number of distinct non-empty substrings of `s` is `n(n+1)/2` less the sum of
    the LCP array: walking the suffixes in sorted order, the prefixes of the suffix at
    rank `r` that no earlier suffix has are exactly those longer than `lcp[r]`. */
module SubstringCounting {
  import opened Strings
  import opened SuffixArrayTheory

  /** The sum of a sequence of integers, peeled off at the back the way a running total
      is accumulated. */
  function Sum(a: seq<int>): int
  {
    if |a| == 0 then 0 else Sum(a[..|a| - 1]) + a[|a| - 1]
  }

  lemma {:induction false} SumConcat(a: seq<int>, b: seq<int>)
    ensures Sum(a + b) == Sum(a) + Sum(b)
  {
    if |b| == 0 {
      assert a + b == a;
    } else {
      assert (a + b)[..|a + b| - 1] == a + b[..|b| - 1];
      SumConcat(a, b[..|b| - 1]);
    }
  }

  /** Taking one element out of the middle of a sequence. */
  lemma SumRemove(b: seq<int>, k: int)
    requires 0 <= k < |b|
    ensures Sum(b) == Sum(b[..k] + b[k + 1..]) + b[k]
  {
    SpliceAt(b, k);
    SumSplice(b[..k], b[k], b[k + 1..]);
  }

  lemma SpliceAt(b: seq<int>, k: int)
    requires 0 <= k < |b|
    ensures b == b[..k] + [b[k]] + b[k + 1..]
  {
  }

  lemma SumSplice(x: seq<int>, v: int, y: seq<int>)
    ensures Sum(x + [v] + y) == Sum(x + y) + v
  {
    SumConcat(x + [v], y);
    SumConcat(x, [v]);
    SumConcat(x, y);
    SumSingle(v);
  }

  lemma SumSingle(v: int)
    ensures Sum([v]) == v
  {
    assert [v][..0] == [];
  }

  /** The last element of `a` sits somewhere in a reordering `b`; without it the two
      are still reorderings of each other. */
  lemma MatchLast(a: seq<int>, b: seq<int>) returns (k: int)
    requires multiset(a) == multiset(b) && |a| > 0
    ensures 0 <= k < |b| && b[k] == a[|a| - 1]
    ensures multiset(a[..|a| - 1]) == multiset(b[..k] + b[k + 1..])
  {
    var x, front := a[|a| - 1], a[..|a| - 1];
    assert a == front + [x];
    assert x in multiset(b);
    k :| 0 <= k < |b| && b[k] == x;
    assert b == b[..k] + [x] + b[k + 1..];
    assert multiset(front) == multiset(a) - multiset{x};
  }

  /** Reordering does not change a sum. */
  lemma {:induction false} SumPermutation(a: seq<int>, b: seq<int>)
    requires multiset(a) == multiset(b)
    ensures Sum(a) == Sum(b)
  {
    if |a| > 0 {
      var k := MatchLast(a, b);
      SumPermutation(a[..|a| - 1], b[..k] + b[k + 1..]);
      SumRemove(b, k);
    }
  }

  lemma {:induction false} SumIota(n: nat)
    ensures 2 * Sum(Iota(n)) == n * (n - 1)
  {
    if n > 0 {
      assert Iota(n)[..n - 1] == Iota(n - 1);
      SumIota(n - 1);
    }
  }

  /** The start positions of a suffix array add up to `0 + 1 + ... + (n-1)`. */
  lemma SumOfPermutation(sa: seq<int>, n: nat)
    requires IsPermutation(sa, n)
    ensures 2 * Sum(sa) == n * (n - 1)
  {
    SumPermutation(sa, Iota(n));
    SumIota(n);
  }

  /** The `L` characters of `s` from position `p` on. */
  function Piece(s: string, p: int, L: int): (w: string)
    requires 0 <= p && 0 <= L <= |s| - p
    ensures |w| == L && w == s[p..][..L]
  {
    s[p..p + L]
  }

  /** The prefixes of the suffix starting at `p` whose lengths lie in `(lo, hi]`. */
  ghost function PrefixesBetween(s: string, p: int, lo: int, hi: int): set<string>
    requires 0 <= p && hi <= |s| - p
  {
    set L | lo < L <= hi && 0 <= L :: Piece(s, p, L)
  }

  /** Prefixes of one suffix are told apart by their lengths. */
  lemma {:induction false} PrefixesBetweenCard(s: string, p: int, lo: nat, hi: int)
    requires 0 <= p && lo <= hi <= |s| - p
    ensures |PrefixesBetween(s, p, lo, hi)| == hi - lo
    decreases hi - lo
  {
    if lo < hi {
      PrefixesBetweenCard(s, p, lo, hi - 1);
      var w := Piece(s, p, hi);
      forall v | v in PrefixesBetween(s, p, lo, hi)
        ensures v in PrefixesBetween(s, p, lo, hi - 1) + {w}
      {
        var L :| lo < L <= hi && 0 <= L && v == Piece(s, p, L);
        if L < hi {
          assert v in PrefixesBetween(s, p, lo, hi - 1);
        }
      }
      assert PrefixesBetween(s, p, lo, hi) == PrefixesBetween(s, p, lo, hi - 1) + {w};
    } else {
      assert PrefixesBetween(s, p, lo, hi) == {};
    }
  }

  /** The lengths `(lo, hi]` split at any `mid` in between. */
  lemma PrefixesBetweenSplit(s: string, p: int, lo: int, mid: int, hi: int)
    requires 0 <= p && lo <= mid <= hi <= |s| - p
    ensures PrefixesBetween(s, p, lo, hi)
         == PrefixesBetween(s, p, lo, mid) + PrefixesBetween(s, p, mid, hi)
  {
    forall w | w in PrefixesBetween(s, p, lo, hi)
      ensures w in PrefixesBetween(s, p, lo, mid) + PrefixesBetween(s, p, mid, hi)
    {
      var L :| lo < L <= hi && 0 <= L && w == Piece(s, p, L);
      if L <= mid {
        assert w in PrefixesBetween(s, p, lo, mid);
      } else {
        assert w in PrefixesBetween(s, p, mid, hi);
      }
    }
  }

  /** The non-empty prefixes of the suffixes at ranks `0 .. r-1`. */
  ghost function Prefixes(s: string, sa: seq<int>, r: nat): set<string>
    requires r <= |sa| && forall t :: 0 <= t < |sa| ==> 0 <= sa[t] < |s|
  {
    if r == 0 then {}
    else Prefixes(s, sa, r - 1) + PrefixesBetween(s, sa[r - 1], 0, |s| - sa[r - 1])
  }

  lemma {:induction false} PrefixMember(s: string, sa: seq<int>, r: nat, t: int, L: int)
    requires r <= |sa| && forall t :: 0 <= t < |sa| ==> 0 <= sa[t] < |s|
    requires 0 <= t < r && 1 <= L <= |s| - sa[t]
    ensures Piece(s, sa[t], L) in Prefixes(s, sa, r)
  {
    if t < r - 1 {
      PrefixMember(s, sa, r - 1, t, L);
    }
  }

  lemma {:induction false} PrefixWitness(s: string, sa: seq<int>, r: nat, w: string)
    returns (t: int, L: int)
    requires r <= |sa| && forall t :: 0 <= t < |sa| ==> 0 <= sa[t] < |s|
    requires w in Prefixes(s, sa, r)
    ensures 0 <= t < r && 1 <= L <= |s| - sa[t] && w == Piece(s, sa[t], L)
  {
    if w in Prefixes(s, sa, r - 1) {
      t, L := PrefixWitness(s, sa, r - 1, w);
    } else {
      t := r - 1;
      L :| 0 < L <= |s| - sa[t] && w == Piece(s, sa[t], L);
    }
  }

  /** Two strings that share their first `L` characters have a common prefix of at least
      that length. */
  lemma LcpAtLeast(a: string, b: string, L: nat)
    requires L <= |a| && L <= |b| && a[..L] == b[..L]
    ensures L <= Lcp(a, b)
  {
    assert forall k :: 0 <= k < L ==> a[k] == a[..L][k] == b[..L][k] == b[k];
  }

  /** `lc` is the LCP array of `s` under the suffix array `sa`. */
  ghost predicate IsLcpArray(s: string, sa: seq<int>, lc: seq<int>)
    requires |sa| == |s| && forall t :: 0 <= t < |sa| ==> 0 <= sa[t] < |s|
  {
    |lc| == |s| && (|s| > 0 ==> lc[0] == 0) &&
    forall r :: 0 < r < |s| ==> lc[r] == Lcp(s[sa[r - 1]..], s[sa[r]..])
  }

  /** The LCP array of a suffix array is determined by it. */
  lemma LcpArrayUnique(s: string, sa: seq<int>, x: seq<int>, y: seq<int>)
    requires |sa| == |s| && forall t :: 0 <= t < |sa| ==> 0 <= sa[t] < |s|
    requires IsLcpArray(s, sa, x) && IsLcpArray(s, sa, y)
    ensures x == y
  {
    forall r | 0 <= r < |s|
      ensures x[r] == y[r]
    {
      if r > 0 {
        assert x[r] == Lcp(s[sa[r - 1]..], s[sa[r]..]);
      }
    }
  }

  /** A prefix of the suffix at rank `r` that an earlier suffix also starts with is no
      longer than `lc[r]`: by the sandwich property the suffix just before has at least
      as much in common with it. */
  lemma NotEarlier(s: string, sa: seq<int>, lc: seq<int>, r: nat, L: int)
    requires IsSuffixArray(s, sa) && IsLcpArray(s, sa, lc)
    requires 0 <= r < |s| && 0 < L && lc[r] < L <= |s| - sa[r]
    ensures Piece(s, sa[r], L) !in Prefixes(s, sa, r)
  {
    var w := Piece(s, sa[r], L);
    if w in Prefixes(s, sa, r) {
      var t, L' := PrefixWitness(s, sa, r, w);
      assert L' == L;
      var a, b, c := s[sa[t]..], s[sa[r - 1]..], s[sa[r]..];
      assert a[..L] == w == c[..L];
      LcpAtLeast(a, c, L);
      if t < r - 1 {
        assert LexLess(a, b);
      }
      assert LexLess(b, c);
      LcpSandwich(a, b, c);
      assert false;
    }
  }

  /** A prefix of the suffix at rank `r > 0` no longer than `lc[r]` is also a prefix of
      the suffix just before it. */
  lemma SharedEarlier(s: string, sa: seq<int>, lc: seq<int>, r: nat)
    requires IsSuffixArray(s, sa) && IsLcpArray(s, sa, lc)
    requires 0 <= r < |s|
    ensures lc[r] <= |s| - sa[r]
    ensures PrefixesBetween(s, sa[r], 0, lc[r]) <= Prefixes(s, sa, r)
  {
    if r > 0 {
      var b, c := s[sa[r - 1]..], s[sa[r]..];
      forall w | w in PrefixesBetween(s, sa[r], 0, lc[r])
        ensures w in Prefixes(s, sa, r)
      {
        var L :| 0 < L <= lc[r] && w == Piece(s, sa[r], L);
        assert w == c[..L] == b[..L] == Piece(s, sa[r - 1], L);
        PrefixMember(s, sa, r, r - 1, L);
      }
    }
  }

  /** The prefixes of the suffix at rank `r` up to length `m` were all seen before:
      only the longer ones can be new. */
  lemma PrefixesExtend(s: string, sa: seq<int>, r: nat, m: int)
    requires r < |sa| && forall t :: 0 <= t < |sa| ==> 0 <= sa[t] < |s|
    requires 0 <= m <= |s| - sa[r]
    requires PrefixesBetween(s, sa[r], 0, m) <= Prefixes(s, sa, r)
    ensures Prefixes(s, sa, r + 1)
         == Prefixes(s, sa, r) + PrefixesBetween(s, sa[r], m, |s| - sa[r])
  {
    PrefixesBetweenSplit(s, sa[r], 0, m, |s| - sa[r]);
  }

  /** The counting step on its own: when the prefixes of the suffix at rank `r` longer
      than `m` are all new, that suffix adds `n - sa[r] - m` prefixes. */
  lemma PrefixesGrow(s: string, sa: seq<int>, r: nat, m: int)
    requires r < |sa| && forall t :: 0 <= t < |sa| ==> 0 <= sa[t] < |s|
    requires 0 <= m <= |s| - sa[r]
    requires Prefixes(s, sa, r + 1)
          == Prefixes(s, sa, r) + PrefixesBetween(s, sa[r], m, |s| - sa[r])
    requires Prefixes(s, sa, r) * PrefixesBetween(s, sa[r], m, |s| - sa[r]) == {}
    ensures |Prefixes(s, sa, r + 1)| == |Prefixes(s, sa, r)| + (|s| - sa[r] - m)
  {
    var n, p := |s|, sa[r];
    var seen, added := Prefixes(s, sa, r), PrefixesBetween(s, p, m, n - p);
    PrefixesBetweenCard(s, p, m, n - p);
    DisjointUnionCard(seen, added);
  }

  lemma DisjointUnionCard<T>(a: set<T>, b: set<T>)
    requires a * b == {}
    ensures |a + b| == |a| + |b|
  {
  }

  /** The suffix at rank `r` adds `n - sa[r] - lc[r]` new distinct prefixes. */
  lemma PrefixesStep(s: string, sa: seq<int>, lc: seq<int>, r: nat)
    requires IsSuffixArray(s, sa) && IsLcpArray(s, sa, lc)
    requires r < |s|
    ensures |Prefixes(s, sa, r + 1)| == |Prefixes(s, sa, r)| + (|s| - sa[r] - lc[r])
  {
    var n, p := |s|, sa[r];
    SharedEarlier(s, sa, lc, r);
    assert Prefixes(s, sa, r) * PrefixesBetween(s, p, lc[r], n - p) == {} by {
      forall w | w in PrefixesBetween(s, p, lc[r], n - p) ensures w !in Prefixes(s, sa, r) {
        var L :| lc[r] < L <= n - p && 0 <= L && w == Piece(s, p, L);
        NotEarlier(s, sa, lc, r, L);
      }
    }
    PrefixesExtend(s, sa, r, lc[r]);
    PrefixesGrow(s, sa, r, lc[r]);
  }

  /** Adding up the steps: the first `r` suffixes have `r*n - (sa[0] + ... + sa[r-1])
      - (lc[0] + ... + lc[r-1])` distinct non-empty prefixes. */
  lemma {:induction false} PrefixesCard(s: string, sa: seq<int>, lc: seq<int>, r: nat)
    requires IsSuffixArray(s, sa) && IsLcpArray(s, sa, lc)
    requires r <= |s|
    ensures |Prefixes(s, sa, r)| == r * |s| - Sum(sa[..r]) - Sum(lc[..r])
  {
    if r > 0 {
      var q := r - 1;
      PrefixesCard(s, sa, lc, q);
      PrefixesStep(s, sa, lc, q);
      SumLast(sa, r);
      SumLast(lc, r);
      CountStep(|Prefixes(s, sa, r)|, |Prefixes(s, sa, q)|, |s|, q, sa[q], lc[q],
                Sum(sa[..q]), Sum(lc[..q]));
    }
  }

  lemma SumLast(a: seq<int>, r: int)
    requires 0 < r <= |a|
    ensures Sum(a[..r]) == Sum(a[..r - 1]) + a[r - 1]
  {
    assert a[..r][..r - 1] == a[..r - 1];
  }

  lemma CountStep(c: int, c0: int, n: int, q: int, x: int, y: int, sx: int, sy: int)
    requires c == c0 + (n - x - y) && c0 == q * n - sx - sy
    ensures c == (q + 1) * n - (sx + x) - (sy + y)
  {
    assert (q + 1) * n == q * n + n;
  }

  /** Every non-empty substring starts some suffix, so the prefixes of all suffixes are
      exactly the non-empty substrings. */
  lemma AllPrefixes(s: string, sa: seq<int>)
    requires IsSuffixArray(s, sa)
    ensures Prefixes(s, sa, |s|) == NonEmptySubstrings(s)
  {
    forall w | w in NonEmptySubstrings(s) ensures w in Prefixes(s, sa, |s|) {
      var i, j :| 0 <= i < j <= |s| && w == s[i..j];
      var t := PositionOf(sa, |s|, i);
      PrefixMember(s, sa, |s|, t, j - i);
    }
    forall w | w in Prefixes(s, sa, |s|) ensures w in NonEmptySubstrings(s) {
      var t, L := PrefixWitness(s, sa, |s|, w);
      assert 0 <= sa[t] < sa[t] + L <= |s|;
    }
  }

  /** The count the LCP array yields: `n(n+1)/2` substrings by position, less the ones
      that repeat an earlier suffix's prefix. */
  lemma DistinctSubstrings(s: string, sa: seq<int>, lc: seq<int>)
    requires IsSuffixArray(s, sa) && IsLcpArray(s, sa, lc)
    ensures |NonEmptySubstrings(s)| == |s| * (|s| + 1) / 2 - Sum(lc)
  {
    var n := |s|;
    PrefixesCard(s, sa, lc, n);
    AllPrefixes(s, sa);
    SumOfPermutation(sa, n);
    assert sa[..n] == sa && lc[..n] == lc;
    HalfTotal(n, Sum(sa));
  }

  lemma HalfTotal(n: nat, S: int)
    requires 2 * S == n * (n - 1)
    ensures n * (n + 1) / 2 == n * n - S
  {
    assert n * (n + 1) == n * (n - 1) + 2 * n;
  }

  lemma SumFive(a: int, b: int, c: int, d: int, e: int)
    ensures Sum([a, b, c, d, e]) == a + b + c + d + e
  {
    assert [a][..0] == [];
    assert Sum([a]) == a;
    assert [a, b][..1] == [a];
    assert Sum([a, b]) == a + b;
    assert [a, b, c][..2] == [a, b];
    assert Sum([a, b, c]) == a + b + c;
    assert [a, b, c, d][..3] == [a, b, c];
    assert Sum([a, b, c, d]) == a + b + c + d;
    assert [a, b, c, d, e][..4] == [a, b, c, d];
  }

  lemma SumSix(a: int, b: int, c: int, d: int, e: int, f: int)
    ensures Sum([a, b, c, d, e, f]) == a + b + c + d + e + f
  {
    SumFive(a, b, c, d, e);
    assert [a, b, c, d, e, f][..5] == [a, b, c, d, e];
  }
}
