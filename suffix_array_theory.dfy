/** What the prefix-doubling suffix sorter and Kasai's LCP builder rely on: permutations,
    truncated prefixes and their ranks, and the rank-pair comparator. */
module SuffixArrayTheory {
  import opened Strings

  /** The identity arrangement 0, 1, ..., n-1, which the sorter starts from. */
  function Iota(n: nat): (r: seq<int>)
    ensures |r| == n && forall i :: 0 <= i < n ==> r[i] == i
  {
    seq(n, i => i)
  }

  /** `sa` holds each of 0..n-1 exactly once. */
  ghost predicate IsPermutation(sa: seq<int>, n: nat)
  {
    multiset(sa) == multiset(Iota(n))
  }

  lemma IotaOnce(n: nat, x: int)
    ensures multiset(Iota(n))[x] == if 0 <= x < n then 1 else 0
  {
    if n > 0 {
      assert Iota(n) == Iota(n - 1) + [n - 1];
      IotaOnce(n - 1, x);
    }
  }

  lemma TwiceCounted(sa: seq<int>, r1: int, r2: int)
    requires 0 <= r1 < r2 < |sa| && sa[r1] == sa[r2]
    ensures multiset(sa)[sa[r1]] >= 2
  {
    assert sa == sa[..r2] + sa[r2..];
    assert sa[..r2][r1] == sa[r1] && sa[r2..][0] == sa[r2];
  }

  /** A permutation of 0..n-1 has length n, stays in range, repeats nothing and misses
      nothing. */
  lemma PermutationFacts(sa: seq<int>, n: nat)
    requires IsPermutation(sa, n)
    ensures |sa| == n
    ensures forall r :: 0 <= r < |sa| ==> 0 <= sa[r] < n
    ensures forall r1, r2 :: 0 <= r1 < r2 < |sa| ==> sa[r1] != sa[r2]
    ensures forall i :: 0 <= i < n ==> i in sa
  {
    assert |multiset(sa)| == |multiset(Iota(n))|;
    forall r | 0 <= r < |sa|
      ensures 0 <= sa[r] < n
    {
      assert sa[r] in multiset(sa);
      IotaOnce(n, sa[r]);
    }
    forall r1, r2 | 0 <= r1 < r2 < |sa|
      ensures sa[r1] != sa[r2]
    {
      if sa[r1] == sa[r2] {
        TwiceCounted(sa, r1, r2);
        IotaOnce(n, sa[r1]);
      }
    }
    forall i | 0 <= i < n
      ensures i in sa
    {
      IotaOnce(n, i);
      assert i in multiset(sa);
    }
  }

  /** Where a permutation of 0..n-1 puts the value `i`. */
  lemma PositionOf(sa: seq<int>, n: nat, i: int) returns (a: int)
    requires IsPermutation(sa, n) && 0 <= i < n
    ensures 0 <= a < |sa| && sa[a] == i
  {
    PermutationFacts(sa, n);
    assert i in sa;
    a :| 0 <= a < |sa| && sa[a] == i;
  }

  /** The first `L` characters of the suffix starting at `i`, fewer when the string ends
      first; empty for a start at or past the end. */
  function Pre(s: string, i: int, L: nat): (p: string)
    requires 0 <= i
    ensures |p| <= L
    ensures i < |s| ==> p == s[i..][..if |s| - i < L then |s| - i else L]
    ensures i >= |s| ==> p == []
  {
    if i >= |s| then [] else s[i..if i + L < |s| then i + L else |s|]
  }

  /** `ranks` ranks the length-`k` prefixes of all suffixes: non-negative, equal exactly
      for equal prefixes, and ordered like the prefixes. */
  ghost predicate RanksPrefixes(s: string, ranks: seq<int>, k: nat)
  {
    |ranks| == |s| &&
    (forall i :: 0 <= i < |s| ==> ranks[i] >= 0) &&
    (forall i, j :: 0 <= i < |s| && 0 <= j < |s| ==> RankPair(s, ranks, k, i, j))
  }

  /** The ranks of `i` and `j` are equal exactly when their length-`k` prefixes are, and
      ordered like them. */
  ghost predicate RankPair(s: string, ranks: seq<int>, k: nat, i: int, j: int)
    requires |ranks| == |s| && 0 <= i < |s| && 0 <= j < |s|
  {
    (ranks[i] == ranks[j] <==> Pre(s, i, k) == Pre(s, j, k)) &&
    (ranks[i] < ranks[j] <==> LexLess(Pre(s, i, k), Pre(s, j, k)))
  }

  /** The rank of position `x`, with -1 for a position past the end (the empty suffix). */
  function RankAt(ranks: seq<int>, x: int): int
    requires 0 <= x
  {
    if x < |ranks| then ranks[x] else -1
  }

  /** The pair the comparator sorts by in the round with offset `k`. */
  function Key(ranks: seq<int>, k: nat, a: int): (int, int)
    requires 0 <= a
  {
    (RankAt(ranks, a), RankAt(ranks, a + k))
  }

  predicate KeyLess(p: (int, int), q: (int, int))
  {
    p.0 < q.0 || (p.0 == q.0 && p.1 < q.1)
  }

  function IntCompare(x: int, y: int): int
  {
    if x < y then -1 else if x == y then 0 else 1
  }

  /** The comparator handed to `Arrays.sort`: by rank, then by the rank `k` further on,
      where a suffix that ends before offset `k` counts as -1. */
  function Compare(ranks: seq<int>, k: nat, a: int, b: int): (c: int)
    requires 0 <= a < |ranks| && 0 <= b < |ranks|
    ensures c < 0 <==> KeyLess(Key(ranks, k, a), Key(ranks, k, b))
    ensures c == 0 <==> Key(ranks, k, a) == Key(ranks, k, b)
    ensures c > 0 <==> KeyLess(Key(ranks, k, b), Key(ranks, k, a))
  {
    if ranks[a] != ranks[b] then IntCompare(ranks[a], ranks[b])
    else
      var ra := if a + k < |ranks| then ranks[a + k] else -1;
      var rb := if b + k < |ranks| then ranks[b + k] else -1;
      IntCompare(ra, rb)
  }

  /** Two ranks are equal exactly when two strings are, and ordered like them. */
  ghost predicate RankedLike(p: int, q: int, A: string, B: string)
  {
    (p == q <==> A == B) && (p < q <==> LexLess(A, B))
  }

  /** The rank invariant extended past the end: -1 and the empty string. */
  lemma RankAtOrder(s: string, ranks: seq<int>, k: nat, x: int, y: int)
    requires k >= 1 && RanksPrefixes(s, ranks, k) && 0 <= x && 0 <= y
    ensures RankedLike(RankAt(ranks, x), RankAt(ranks, y), Pre(s, x, k), Pre(s, y, k))
  {
    if x >= |s| && y < |s| {
      assert |Pre(s, y, k)| >= 1;
    } else if x < |s| && y >= |s| {
      assert |Pre(s, x, k)| >= 1;
      assert Lcp(Pre(s, x, k), []) == 0;
    } else if x >= |s| && y >= |s| {
      LexLessIrreflexive([]);
    } else {
      assert RankPair(s, ranks, k, x, y);
    }
  }

  /** A prefix of length `2k` is the prefix of length `k` followed by the prefix of
      length `k` that starts `k` further on; the second part is empty when the first is
      cut short by the end of the string. */
  lemma PreSplit(s: string, i: int, k: nat, x: int)
    requires 0 <= i < |s| && x == i + k
    ensures Pre(s, i, 2 * k) == Pre(s, i, k) + Pre(s, x, k)
  {
  }

  /** A prefix cut short by the end of the string leaves nothing after it. */
  lemma PreShort(s: string, i: int, k: nat, x: int)
    requires 0 <= i < |s| && x == i + k
    ensures |Pre(s, i, k)| < k ==> Pre(s, x, k) == []
  {
  }

  lemma LcpCommonPrefix(a: string, b: string, d: string)
    ensures Lcp(a + b, a + d) == |a| + Lcp(b, d)
  {
    var m := Lcp(b, d);
    assert (a + b)[..|a| + m] == a + b[..m];
    assert (a + d)[..|a| + m] == a + d[..m];
    LcpUnique(a + b, a + d, |a| + m);
  }

  /** How a concatenation `A + B` compares with `C + D` when `A` and `C` have at most
      `k` characters and a part shorter than `k` is followed by nothing. */
  lemma ConcatOrder(A: string, B: string, C: string, D: string, k: nat)
    requires |A| <= k && |C| <= k
    requires |A| < k ==> B == []
    requires |C| < k ==> D == []
    ensures A == C ==> (A + B == C + D <==> B == D)
    ensures A == C ==> (LexLess(A + B, C + D) <==> LexLess(B, D))
    ensures A != C ==> A + B != C + D
    ensures A != C ==> (LexLess(A + B, C + D) <==> LexLess(A, C))
  {
    if A == C {
      LcpCommonPrefix(A, B, D);
      if A + B == C + D {
        assert B == (A + B)[|A|..];
      }
    } else {
      var m := Lcp(A, C);
      assert A[..|A|] == A && C[..|C|] == C;
      if m < |A| && m < |C| {
        assert (A + B)[..m] == A[..m] && (C + D)[..m] == C[..m];
        LcpUnique(A + B, C + D, m);
        assert (A + B)[m] != (C + D)[m];
      } else if m == |A| && m < |C| {
        assert A + B == A;
        assert (C + D)[..m] == C[..m];
        LcpUnique(A, C + D, m);
        assert A + B != C + D;
      } else if m == |C| && m < |A| {
        assert C + D == C;
        assert (A + B)[..m] == A[..m];
        LcpUnique(A + B, C, m);
        assert A + B != C + D;
      }
    }
  }

  /** Two pairs are equal exactly when two strings are, and ordered like them. */
  ghost predicate KeyedLike(p: (int, int), q: (int, int), A: string, B: string)
  {
    (p == q <==> A == B) && (KeyLess(p, q) <==> LexLess(A, B))
  }

  /** The doubling step: when `ranks` ranks the length-`k` prefixes, the comparator's
      pairs compare exactly like the length-`2k` prefixes. */
  lemma KeyOrder(s: string, ranks: seq<int>, k: nat, i: int, j: int)
    requires k >= 1 && RanksPrefixes(s, ranks, k)
    requires 0 <= i < |s| && 0 <= j < |s|
    ensures KeyedLike(Key(ranks, k, i), Key(ranks, k, j), Pre(s, i, 2 * k), Pre(s, j, 2 * k))
  {
    var x, y := i + k, j + k;
    assert Key(ranks, k, i) == (RankAt(ranks, i), RankAt(ranks, x));
    assert Key(ranks, k, j) == (RankAt(ranks, j), RankAt(ranks, y));
    PreShort(s, i, k, x);
    PreShort(s, j, k, y);
    RankAtOrder(s, ranks, k, i, j);
    RankAtOrder(s, ranks, k, x, y);
    PairOrder(RankAt(ranks, i), RankAt(ranks, x), RankAt(ranks, j), RankAt(ranks, y),
              Pre(s, i, k), Pre(s, x, k), Pre(s, j, k), Pre(s, y, k), k);
    PreSplit(s, i, k, x);
    PreSplit(s, j, k, y);
  }

  /** Pairs of ranks of the parts compare like the concatenated parts. */
  lemma PairOrder(p0: int, p1: int, q0: int, q1: int,
                  A: string, B: string, C: string, D: string, k: nat)
    requires |A| <= k && |C| <= k && (|A| < k ==> B == []) && (|C| < k ==> D == [])
    requires RankedLike(p0, q0, A, C) && RankedLike(p1, q1, B, D)
    ensures KeyedLike((p0, p1), (q0, q1), A + B, C + D)
  {
    ConcatOrder(A, B, C, D, k);
  }

  /** Prefixes of suffixes that are strictly ordered order the whole suffixes the same
      way. */
  lemma PrefixOrderIsSuffixOrder(s: string, i: int, j: int, L: nat)
    requires 0 <= i < |s| && 0 <= j < |s|
    requires LexLess(Pre(s, i, L), Pre(s, j, L))
    ensures LexLess(s[i..], s[j..])
  {
    var A, C := Pre(s, i, L), Pre(s, j, L);
    var m := Lcp(A, C);
    assert A == s[i..][..|A|] && C == s[j..][..|C|];
    if m < |A| {
      assert s[i..][..m] == A[..m] && s[j..][..m] == C[..m];
      LcpUnique(s[i..], s[j..], m);
    } else {
      // A is cut short, so it is the whole suffix at i
      assert A == s[i..];
      assert s[j..][..m] == C[..m];
      LcpUnique(s[i..], s[j..], m);
    }
  }

  /** Once the prefixes are at least as long as the string they are whole suffixes. */
  lemma LongPrefixIsSuffix(s: string, i: int, L: nat)
    requires 0 <= i < |s| && L >= |s|
    ensures Pre(s, i, L) == s[i..]
  {
  }

  /** `sa` lists the suffixes of `s` in strictly increasing lexicographic order. */
  ghost predicate IsSuffixArray(s: string, sa: seq<int>)
  {
    |sa| == |s| &&
    (forall r :: 0 <= r < |sa| ==> 0 <= sa[r] < |s|) &&
    IsPermutation(sa, |s|) &&
    (forall r1, r2 {:trigger LexLess(s[sa[r1]..], s[sa[r2]..])} ::
       0 <= r1 < r2 < |sa| ==> LexLess(s[sa[r1]..], s[sa[r2]..]))
  }

  /** The ranks the sorter starts from: each position's character code. */
  function CharRanks(s: string): (ranks: seq<int>)
    ensures RanksPrefixes(s, ranks, 1)
  {
    var ranks := seq(|s|, i requires 0 <= i < |s| => s[i] as int);
    forall i, j | 0 <= i < |s| && 0 <= j < |s|
      ensures RankPair(s, ranks, 1, i, j)
    {
      assert Pre(s, i, 1) == [s[i]] && Pre(s, j, 1) == [s[j]];
      if s[i] == s[j] {
        LexLessIrreflexive([s[i]]);
      } else {
        LcpUnique([s[i]], [s[j]], 0);
      }
    }
    ranks
  }

  /** `sa` is in range and ordered by the comparator of the round with offset `k`. */
  ghost predicate SortedByKey(ranks: seq<int>, k: nat, sa: seq<int>)
  {
    (forall r :: 0 <= r < |sa| ==> 0 <= sa[r] < |ranks|) &&
    (forall r1, r2 {:trigger Compare(ranks, k, sa[r1], sa[r2])} ::
       0 <= r1 < r2 < |sa| ==> Compare(ranks, k, sa[r1], sa[r2]) <= 0)
  }

  /** The new rank held by the `r`-th sorted position. */
  function RankOf(tmp: seq<int>, sa: seq<int>, r: int): int
    requires 0 <= r < |sa| && 0 <= sa[r] < |tmp|
  {
    tmp[sa[r]]
  }

  /** What the re-ranking pass leaves behind in its first `m` sorted positions: the new
      ranks start at 0, never fall, rise by at most one per step, and stay equal exactly
      as long as the comparator's pairs do. */
  ghost predicate DenseAlong(ranks: seq<int>, k: nat, sa: seq<int>, tmp: seq<int>, m: int)
  {
    m <= |sa| &&
    (forall r :: 0 <= r < |sa| ==> 0 <= sa[r] < |ranks| && sa[r] < |tmp|) &&
    (0 < m ==> tmp[sa[0]] == 0) &&
    (forall r1, r2 {:trigger RankOf(tmp, sa, r1), RankOf(tmp, sa, r2)} ::
       0 <= r1 <= r2 < m ==>
       0 <= RankOf(tmp, sa, r2) - RankOf(tmp, sa, r1) <= r2 - r1 &&
       (RankOf(tmp, sa, r1) == RankOf(tmp, sa, r2) <==>
          Key(ranks, k, sa[r1]) == Key(ranks, k, sa[r2])))
  }

  /** The rank the pass gives the `i`-th sorted position: the previous one's, plus one
      when the comparator's pairs differ. */
  ghost function NextRank(ranks: seq<int>, k: nat, sa: seq<int>, tmp: seq<int>, i: int): int
    requires 0 < i < |sa| && forall r :: 0 <= r < |sa| ==> 0 <= sa[r] < |ranks| && sa[r] < |tmp|
  {
    tmp[sa[i - 1]] + if Key(ranks, k, sa[i - 1]) != Key(ranks, k, sa[i]) then 1 else 0
  }

  /** One step of the re-ranking pass keeps `DenseAlong` for one more position. */
  lemma RerankStep(ranks: seq<int>, k: nat, sa: seq<int>, tmp: seq<int>, i: int)
    requires SortedByKey(ranks, k, sa) && DenseAlong(ranks, k, sa, tmp, i) && 0 < i < |sa|
    requires forall r1, r2 :: 0 <= r1 < r2 < |sa| ==> sa[r1] != sa[r2]
    ensures DenseAlong(ranks, k, sa, tmp[sa[i] := NextRank(ranks, k, sa, tmp, i)], i + 1)
  {
    var t := tmp[sa[i] := NextRank(ranks, k, sa, tmp, i)];
    forall r | 0 <= r < i
      ensures RankOf(t, sa, r) == RankOf(tmp, sa, r)
    {
      assert sa[r] != sa[i];
    }
    forall r1 | 0 <= r1 < i
      ensures 0 <= RankOf(t, sa, i) - RankOf(t, sa, r1) <= i - r1
      ensures RankOf(t, sa, r1) == RankOf(t, sa, i) <==>
                Key(ranks, k, sa[r1]) == Key(ranks, k, sa[i])
    {
      assert RankOf(t, sa, i) == RankOf(tmp, sa, i - 1) +
        if Key(ranks, k, sa[i - 1]) != Key(ranks, k, sa[i]) then 1 else 0;
      assert 0 <= RankOf(tmp, sa, i - 1) - RankOf(tmp, sa, r1) <= i - 1 - r1;
      if r1 < i - 1 {
        assert Compare(ranks, k, sa[r1], sa[i - 1]) <= 0;
      }
      assert Compare(ranks, k, sa[i - 1], sa[i]) <= 0;
    }
  }

  /** Ranks that `DenseAlong` describes never fall along the sorted order. */
  lemma DenseNondecreasing(ranks: seq<int>, k: nat, sa: seq<int>, tmp: seq<int>)
    requires DenseAlong(ranks, k, sa, tmp, |sa|)
    ensures forall r1, r2 :: 0 <= r1 < r2 < |sa| ==> tmp[sa[r1]] <= tmp[sa[r2]]
  {
    forall r1, r2 | 0 <= r1 < r2 < |sa|
      ensures tmp[sa[r1]] <= tmp[sa[r2]]
    {
      assert RankOf(tmp, sa, r1) <= RankOf(tmp, sa, r2);
    }
  }

  /** One pair of the re-ranking argument, for sorted positions `a <= b`. */
  lemma RerankPair(s: string, ranks: seq<int>, k: nat, sa: seq<int>, tmp: seq<int>,
                   a: int, b: int)
    requires k >= 1 && RanksPrefixes(s, ranks, k) && |tmp| == |s|
    requires 0 <= a <= b < |sa| && 0 <= sa[a] < |s| && 0 <= sa[b] < |s|
    requires a < b ==> Compare(ranks, k, sa[a], sa[b]) <= 0
    requires 0 <= tmp[sa[b]] - tmp[sa[a]]
    requires tmp[sa[a]] == tmp[sa[b]] <==> Key(ranks, k, sa[a]) == Key(ranks, k, sa[b])
    ensures tmp[sa[a]] == tmp[sa[b]] <==> Pre(s, sa[a], 2 * k) == Pre(s, sa[b], 2 * k)
    ensures tmp[sa[a]] < tmp[sa[b]] <==> LexLess(Pre(s, sa[a], 2 * k), Pre(s, sa[b], 2 * k))
    ensures !(tmp[sa[b]] < tmp[sa[a]]) && !LexLess(Pre(s, sa[b], 2 * k), Pre(s, sa[a], 2 * k))
  {
    KeyOrder(s, ranks, k, sa[a], sa[b]);
    KeyOrder(s, ranks, k, sa[b], sa[a]);
  }

  /** One round of prefix doubling: re-ranking the comparator-sorted positions gives a
      ranking of the prefixes twice as long. */
  lemma RerankCorrect(s: string, ranks: seq<int>, k: nat, sa: seq<int>, tmp: seq<int>)
    requires k >= 1 && RanksPrefixes(s, ranks, k)
    requires IsPermutation(sa, |s|) && SortedByKey(ranks, k, sa)
    requires |tmp| == |s| && DenseAlong(ranks, k, sa, tmp, |sa|)
    ensures RanksPrefixes(s, tmp, 2 * k)
  {
    forall i, j | 0 <= i < |s| && 0 <= j < |s|
      ensures RankPair(s, tmp, 2 * k, i, j)
    {
      var a := PositionOf(sa, |s|, i);
      var b := PositionOf(sa, |s|, j);
      assert RankOf(tmp, sa, a) == tmp[i] && RankOf(tmp, sa, b) == tmp[j];
      if a <= b {
        RerankPair(s, ranks, k, sa, tmp, a, b);
      } else {
        RerankPair(s, ranks, k, sa, tmp, b, a);
      }
    }
    forall i | 0 <= i < |s|
      ensures tmp[i] >= 0
    {
      var a := PositionOf(sa, |s|, i);
      assert 0 <= RankOf(tmp, sa, a) - RankOf(tmp, sa, 0);
    }
  }

  /** When the last sorted position got rank n-1, every position got its own rank. */
  lemma AllRanksDistinct(ranks: seq<int>, k: nat, sa: seq<int>, tmp: seq<int>)
    requires DenseAlong(ranks, k, sa, tmp, |sa|) && |sa| > 0
    requires tmp[sa[|sa| - 1]] == |sa| - 1
    ensures forall r :: 0 <= r < |sa| ==> tmp[sa[r]] == r
  {
    forall r | 0 <= r < |sa|
      ensures tmp[sa[r]] == r
    {
      assert RankOf(tmp, sa, r) - RankOf(tmp, sa, 0) <= r;
      assert RankOf(tmp, sa, |sa| - 1) - RankOf(tmp, sa, r) <= |sa| - 1 - r;
    }
  }

  /** Ranks that strictly increase along `sa` and rank prefixes of some length make `sa`
      the suffix array. */
  lemma SortedFromRanks(s: string, ranks: seq<int>, L: nat, sa: seq<int>)
    requires RanksPrefixes(s, ranks, L) && IsPermutation(sa, |s|)
    requires forall r :: 0 <= r < |sa| ==> 0 <= sa[r] < |s|
    requires forall r1, r2 :: 0 <= r1 < r2 < |sa| ==> ranks[sa[r1]] < ranks[sa[r2]]
    ensures IsSuffixArray(s, sa)
  {
    PermutationFacts(sa, |s|);
    forall r1, r2 | 0 <= r1 < r2 < |sa|
      ensures LexLess(s[sa[r1]..], s[sa[r2]..])
    {
      assert RankPair(s, ranks, L, sa[r1], sa[r2]);
      PrefixOrderIsSuffixOrder(s, sa[r1], sa[r2], L);
    }
  }

  /** The ranks never fall along the order `sa`. */
  ghost predicate RanksAlong(ranks: seq<int>, sa: seq<int>)
  {
    (forall r :: 0 <= r < |sa| ==> 0 <= sa[r] < |ranks|) &&
    forall r1, r2 :: 0 <= r1 < r2 < |sa| ==> ranks[sa[r1]] <= ranks[sa[r2]]
  }

  /** What one doubling round establishes: the new ranks rank the prefixes of length `2k`,
      never fall along the sorted order, and, once the last position has rank n-1, the
      sorted order is the suffix array. */
  lemma RoundResult(s: string, ranks: seq<int>, k: nat, sa: seq<int>, tmp: seq<int>)
    requires k >= 1 && RanksPrefixes(s, ranks, k)
    requires IsPermutation(sa, |s|) && SortedByKey(ranks, k, sa)
    requires forall r :: 0 <= r < |sa| ==> 0 <= sa[r] < |s|
    requires |sa| == |tmp| == |s| && DenseAlong(ranks, k, sa, tmp, |sa|)
    ensures RanksPrefixes(s, tmp, 2 * k) && RanksAlong(tmp, sa)
    ensures |s| > 0 && tmp[sa[|s| - 1]] == |s| - 1 ==> IsSuffixArray(s, sa)
  {
    RerankCorrect(s, ranks, k, sa, tmp);
    DenseNondecreasing(ranks, k, sa, tmp);
    if |s| > 0 && tmp[sa[|s| - 1]] == |s| - 1 {
      AllRanksDistinct(ranks, k, sa, tmp);
      SortedFromRanks(s, tmp, 2 * k, sa);
    }
  }

  /** When the loop runs out with prefixes as long as the string, ranks that never fall
      along `sa` in fact strictly increase: two different suffixes differ. */
  lemma FinalOrder(s: string, ranks: seq<int>, k: nat, sa: seq<int>)
    requires k >= |s| && RanksPrefixes(s, ranks, k) && IsPermutation(sa, |s|)
    requires RanksAlong(ranks, sa)
    ensures IsSuffixArray(s, sa)
  {
    PermutationFacts(sa, |s|);
    forall r1, r2 | 0 <= r1 < r2 < |sa|
      ensures ranks[sa[r1]] < ranks[sa[r2]]
    {
      LongPrefixIsSuffix(s, sa[r1], k);
      LongPrefixIsSuffix(s, sa[r2], k);
      assert |s[sa[r1]..]| != |s[sa[r2]..]|;
      assert RankPair(s, ranks, k, sa[r1], sa[r2]);
    }
    SortedFromRanks(s, ranks, k, sa);
  }

  /** Dropping the shared first character keeps the order of two suffixes and shortens
      their common prefix by one. */
  lemma ShiftOrder(s: string, i: int, j: int, a: int, b: int)
    requires 0 <= i < |s| && 0 <= j < |s| && a == j + 1 && b == i + 1
    requires LexLess(s[j..], s[i..]) && Lcp(s[i..], s[j..]) >= 2
    ensures b < |s| && a < |s|
    ensures LexLess(s[a..], s[b..])
    ensures Lcp(s[a..], s[b..]) == Lcp(s[i..], s[j..]) - 1
  {
    LcpSymmetric(s[i..], s[j..]);
    LcpDropFirst(s[j..], s[i..]);
    assert s[j..][1..] == s[a..] && s[i..][1..] == s[b..];
  }

  /** In a suffix array, a smaller suffix sits at a smaller position. */
  lemma RankOrder(s: string, sa: seq<int>, r1: int, r2: int)
    requires IsSuffixArray(s, sa) && 0 <= r1 < |sa| && 0 <= r2 < |sa|
    requires LexLess(s[sa[r1]..], s[sa[r2]..])
    ensures r1 < r2
  {
    if r1 == r2 {
      LexLessIrreflexive(s[sa[r1]..]);
    } else if r1 > r2 {
      LexLessTotal(s[sa[r1]..], s[sa[r2]..]);
    }
  }

  /** The string half of Kasai's step: a suffix `p` between `j + 1` and `i + 1` shares
      with `i + 1` at least what `j + 1` does. */
  lemma ShiftSandwich(s: string, i: int, j: int, a: int, b: int, p: int)
    requires 0 <= i < |s| && 0 <= j < |s| && 0 <= p < |s|
    requires LexLess(s[j..], s[i..]) && Lcp(s[i..], s[j..]) >= 2
    requires a == j + 1 < |s| && b == i + 1 < |s|
    requires LexLessEq(s[a..], s[p..]) && LexLess(s[p..], s[b..])
    ensures Lcp(s[i..], s[j..]) - 1 <= Lcp(s[b..], s[p..])
  {
    ShiftOrder(s, i, j, a, b);
    LcpSandwich(s[a..], s[p..], s[b..]);
    LcpSymmetric(s[p..], s[b..]);
  }

  /** Kasai's step: when the suffix at `i = sa[r]` shares `h >= 2` characters with its
      predecessor `j = sa[r - 1]`, the suffix at `i + 1` (at `sa[r2]`) has a predecessor
      too and shares at least `h - 1` characters with it; `r1` is where `j + 1` sits. */
  lemma KasaiStep(s: string, sa: seq<int>, r: int, r1: int, r2: int)
    requires IsSuffixArray(s, sa)
    requires 0 < r < |s| && 0 <= r1 < |s| && 0 <= r2 < |s|
    requires sa[r1] == sa[r - 1] + 1 && sa[r2] == sa[r] + 1
    requires Lcp(s[sa[r]..], s[sa[r - 1]..]) >= 2
    ensures r2 > 0
    ensures Lcp(s[sa[r]..], s[sa[r - 1]..]) - 1 <= Lcp(s[sa[r2]..], s[sa[r2 - 1]..])
  {
    var i, j := sa[r], sa[r - 1];
    SortedAt(s, sa, r - 1, r);
    ShiftOrder(s, i, j, sa[r1], sa[r2]);
    Predecessor(s, sa, r1, r2);
    ShiftSandwich(s, i, j, sa[r1], sa[r2], sa[r2 - 1]);
  }

  /** In a suffix array, the suffix just before one that a suffix `sa[r1]` precedes lies
      between the two. */
  lemma Predecessor(s: string, sa: seq<int>, r1: int, r2: int)
    requires IsSuffixArray(s, sa) && 0 <= r1 < |sa| && 0 <= r2 < |sa|
    requires LexLess(s[sa[r1]..], s[sa[r2]..])
    ensures 0 < r2
    ensures LexLessEq(s[sa[r1]..], s[sa[r2 - 1]..]) && LexLess(s[sa[r2 - 1]..], s[sa[r2]..])
  {
    RankOrder(s, sa, r1, r2);
    SortedAtMost(s, sa, r1, r2 - 1);
    SortedAt(s, sa, r2 - 1, r2);
  }

  /** Two ranks of a suffix array in order hold suffixes in order. */
  lemma SortedAt(s: string, sa: seq<int>, r1: int, r2: int)
    requires IsSuffixArray(s, sa) && 0 <= r1 < r2 < |sa|
    ensures LexLess(s[sa[r1]..], s[sa[r2]..])
  {
  }

  lemma SortedAtMost(s: string, sa: seq<int>, r1: int, r2: int)
    requires IsSuffixArray(s, sa) && 0 <= r1 <= r2 < |sa|
    ensures LexLessEq(s[sa[r1]..], s[sa[r2]..])
  {
    if r1 < r2 {
      SortedAt(s, sa, r1, r2);
    }
  }

  /** A string has one suffix array: its suffixes are all different, so sorting them
      leaves no choice. */
  lemma SuffixArrayUnique(s: string, x: seq<int>, y: seq<int>)
    requires IsSuffixArray(s, x) && IsSuffixArray(s, y)
    ensures x == y
  {
    UniqueUpTo(s, x, y, |s|);
    assert x == x[..|s|] && y == y[..|s|];
  }

  lemma {:induction false} UniqueUpTo(s: string, x: seq<int>, y: seq<int>, r: nat)
    requires IsSuffixArray(s, x) && IsSuffixArray(s, y) && r <= |s|
    ensures x[..r] == y[..r]
  {
    if r > 0 {
      UniqueUpTo(s, x, y, r - 1);
      UniqueAt(s, x, y, r - 1);
      assert x[..r] == x[..r - 1] + [x[r - 1]] && y[..r] == y[..r - 1] + [y[r - 1]];
    }
  }

  /** Where two suffix arrays first differ, each would put the other's suffix first. */
  lemma UniqueAt(s: string, x: seq<int>, y: seq<int>, r: int)
    requires IsSuffixArray(s, x) && IsSuffixArray(s, y) && 0 <= r < |s| && x[..r] == y[..r]
    ensures x[r] == y[r]
  {
    if x[r] != y[r] {
      PermutationFacts(x, |s|);
      PermutationFacts(y, |s|);
      var i := PositionOf(x, |s|, y[r]);
      var j := PositionOf(y, |s|, x[r]);
      PrefixAgrees(x, y, r);
      assert r < i && r < j;
      SortedAt(s, x, r, i);
      SortedAt(s, y, r, j);
      LexLessTotal(s[x[r]..], s[y[r]..]);
    }
  }

  lemma PrefixAgrees(x: seq<int>, y: seq<int>, r: int)
    requires 0 <= r <= |x| && r <= |y| && x[..r] == y[..r]
    ensures forall k :: 0 <= k < r ==> x[k] == y[k]
  {
    assert forall k :: 0 <= k < r ==> x[k] == x[..r][k] && y[k] == y[..r][k];
  }

  /** A list of suffixes each smaller than the next is sorted. */
  lemma NeighboursSorted(s: string, sa: seq<int>)
    requires forall r :: 0 <= r < |sa| ==> 0 <= sa[r] < |s|
    requires forall r :: 0 < r < |sa| ==> LexLess(s[sa[r - 1]..], s[sa[r]..])
    ensures forall r1, r2 {:trigger LexLess(s[sa[r1]..], s[sa[r2]..])} ::
      0 <= r1 < r2 < |sa| ==> LexLess(s[sa[r1]..], s[sa[r2]..])
  {
    forall r1, r2 | 0 <= r1 < r2 < |sa|
      ensures LexLess(s[sa[r1]..], s[sa[r2]..])
    {
      NeighboursChain(s, sa, r1, r2);
    }
  }

  lemma {:induction false} NeighboursChain(s: string, sa: seq<int>, r1: int, r2: int)
    requires forall r :: 0 <= r < |sa| ==> 0 <= sa[r] < |s|
    requires forall r :: 0 < r < |sa| ==> LexLess(s[sa[r - 1]..], s[sa[r]..])
    requires 0 <= r1 < r2 < |sa|
    ensures LexLess(s[sa[r1]..], s[sa[r2]..])
    decreases r2 - r1
  {
    if r1 + 1 < r2 {
      NeighboursChain(s, sa, r1, r2 - 1);
      LexLessTransitive(s[sa[r1]..], s[sa[r2 - 1]..], s[sa[r2]..]);
    }
  }
}
