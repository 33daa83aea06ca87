/** Suffix array by prefix doubling, the LCP array by Kasai's algorithm, and the number of
    distinct substrings derived from both (Algorithms/SuffixArrayLCP.java). */
module SuffixArrayLcp {
  import opened Strings
  import opened SuffixArrayTheory
  import opened SubstringCounting

  /** Every entry of `sa` is a position of `ranks`. */
  ghost predicate InRange(sa: seq<int>, n: int)
  {
    forall r :: 0 <= r < |sa| ==> 0 <= sa[r] < n
  }

  /** `sa[..m]` is in comparator order. */
  ghost predicate SortedPrefix(ranks: seq<int>, k: nat, sa: seq<int>, m: int)
  {
    InRange(sa, |ranks|) && m <= |sa| &&
    forall r1, r2 :: 0 <= r1 < r2 < m ==> Compare(ranks, k, sa[r1], sa[r2]) <= 0
  }

  /** Insertion of the element now at `j` into the sorted run before it is under way:
      `sa[..i+1]` is in comparator order except for the pairs that end at `j`. */
  ghost predicate SortedExcept(ranks: seq<int>, k: nat, sa: seq<int>, i: int, j: int)
  {
    InRange(sa, |ranks|) && i < |sa| &&
    forall r1, r2 :: 0 <= r1 < r2 <= i && r2 != j ==> Compare(ranks, k, sa[r1], sa[r2]) <= 0
  }

  /** Swapping `j - 1` and `j` when they are out of order moves the gap one step down. */
  lemma SortStep(ranks: seq<int>, k: nat, sa: seq<int>, i: int, j: int)
    requires SortedExcept(ranks, k, sa, i, j) && 0 < j <= i
    requires Compare(ranks, k, sa[j - 1], sa[j]) > 0
    ensures SortedExcept(ranks, k, sa[j - 1 := sa[j]][j := sa[j - 1]], i, j - 1)
  {
  }

  /** Swapping two neighbours rearranges a sequence. */
  lemma SwapKeeps(a: seq<int>, j: int)
    requires 0 < j < |a|
    ensures multiset(a[j - 1 := a[j]][j := a[j - 1]]) == multiset(a)
  {
  }

  /** The insertion stops at the bottom or once `j - 1` and `j` are in order. */
  lemma SortDone(ranks: seq<int>, k: nat, sa: seq<int>, i: int, j: int)
    requires SortedExcept(ranks, k, sa, i, j) && 0 <= j <= i
    requires j > 0 ==> Compare(ranks, k, sa[j - 1], sa[j]) <= 0
    ensures SortedPrefix(ranks, k, sa, i + 1)
  {
    forall r1, r2 | 0 <= r1 < r2 <= i
      ensures Compare(ranks, k, sa[r1], sa[r2]) <= 0
    {
      if r2 == j && r1 < j - 1 {
        assert Compare(ranks, k, sa[r1], sa[j - 1]) <= 0;
      }
    }
  }

  /** The `Arrays.sort(sa, comparator)` call of one doubling round: rearranges `sa` into
      comparator order. */
  method SortByKey(sa: array<int>, ranks: seq<int>, k: nat)
    requires InRange(sa[..], |ranks|)
    modifies sa
    ensures multiset(sa[..]) == old(multiset(sa[..]))
    ensures SortedByKey(ranks, k, sa[..])
  {
    for i := 0 to sa.Length
      invariant multiset(sa[..]) == old(multiset(sa[..]))
      invariant SortedPrefix(ranks, k, sa[..], i)
    {
      InsertAt(sa, ranks, k, i);
    }
  }

  /** One insertion step of the sort: moves the element at `i` down into the sorted run
      `sa[..i]`. */
  method InsertAt(sa: array<int>, ranks: seq<int>, k: nat, i: int)
    requires 0 <= i < sa.Length && SortedPrefix(ranks, k, sa[..], i)
    modifies sa
    ensures multiset(sa[..]) == old(multiset(sa[..]))
    ensures SortedPrefix(ranks, k, sa[..], i + 1)
  {
    var j := i;
    while j > 0 && Compare(ranks, k, sa[j - 1], sa[j]) > 0
      invariant 0 <= j <= i
      invariant multiset(sa[..]) == old(multiset(sa[..]))
      invariant SortedExcept(ranks, k, sa[..], i, j)
    {
      ghost var before := sa[..];
      ghost var after := before[j - 1 := before[j]][j := before[j - 1]];
      SortStep(ranks, k, before, i, j);
      SwapKeeps(before, j);
      sa[j - 1], sa[j] := sa[j], sa[j - 1];
      assert sa[..] == after;
      j := j - 1;
    }
    SortDone(ranks, k, sa[..], i, j);
  }

  /** The re-ranking pass of one doubling round: walks the sorted positions and gives
      each the previous one's new rank, plus one when the comparator's pairs differ. */
  method Rerank(sa: array<int>, ranks: array<int>, tmp: array<int>, k: nat)
    requires tmp != sa && tmp != ranks
    requires sa.Length == ranks.Length == tmp.Length > 0
    requires SortedByKey(ranks[..], k, sa[..])
    requires forall r1, r2 :: 0 <= r1 < r2 < sa.Length ==> sa[r1] != sa[r2]
    modifies tmp
    ensures DenseAlong(ranks[..], k, sa[..], tmp[..], sa.Length)
  {
    var n := sa.Length;
    ghost var S, R := sa[..], ranks[..];
    tmp[sa[0]] := 0;
    for i := 1 to n
      invariant sa[..] == S && ranks[..] == R
      invariant DenseAlong(R, k, S, tmp[..], i)
    {
      ghost var T := tmp[..];
      RerankStep(R, k, S, T, i);
      var prev, cur := sa[i - 1], sa[i];
      ghost var v := NextRank(R, k, S, T, i);
      tmp[sa[i]] := tmp[sa[i - 1]];
      if ranks[prev] != ranks[cur] {
        assert v == T[prev] + 1;
        tmp[cur] := tmp[cur] + 1;
      } else {
        var rprev := if prev + k < n then ranks[prev + k] else -1;
        var rcur := if cur + k < n then ranks[cur + k] else -1;
        assert v == T[prev] + if rprev != rcur then 1 else 0;
        if rprev != rcur {
          tmp[cur] := tmp[cur] + 1;
        }
      }
      assert tmp[..] == T[cur := v];
    }
  }

  /** One doubling round: sorts the positions by the comparator's pairs, re-ranks them,
      and copies the new ranks back, which then rank the prefixes of length `2k`. */
  method DoublingRound(s: string, sa: array<int>, ranks: array<int>, tmp: array<int>, k: nat)
    requires sa != ranks && sa != tmp && ranks != tmp
    requires sa.Length == ranks.Length == tmp.Length == |s| && 1 <= k < |s|
    requires IsPermutation(sa[..], |s|) && InRange(sa[..], |s|)
    requires RanksPrefixes(s, ranks[..], k)
    modifies sa, ranks, tmp
    ensures IsPermutation(sa[..], |s|) && InRange(sa[..], |s|)
    ensures RanksPrefixes(s, ranks[..], 2 * k)
    ensures RanksAlong(ranks[..], sa[..])
    ensures ranks[sa[|s| - 1]] == |s| - 1 ==> IsSuffixArray(s, sa[..])
  {
    var n := |s|;
    ghost var S0 := sa[..];
    SortByKey(sa, ranks[..], k);
    ghost var S, R := sa[..], ranks[..];
    assert IsPermutation(S, n) by {
      assert multiset(S) == multiset(S0);
    }
    assert forall r1, r2 :: 0 <= r1 < r2 < n ==> S[r1] != S[r2] by {
      PermutationFacts(S, n);
    }
    Rerank(sa, ranks, tmp, k);
    ghost var T := tmp[..];
    forall t | 0 <= t < n {
      ranks[t] := tmp[t];
    }
    assert ranks[..] == T && sa[..] == S;
    RoundResult(s, R, k, S, T);
  }

  /** Builds the suffix array of `s`: doubles the compared prefix length `k` each round,
      sorting by the pair (rank at i, rank at i + k) and re-ranking, and stops early once
      all ranks are distinct. */
  method BuildSA(s: string) returns (sa: array<int>)
    ensures IsSuffixArray(s, sa[..])
  {
    var n := |s|;
    sa := new int[n](i => i);
    var ranks := new int[n](i requires 0 <= i < n => s[i] as int);
    var tmp := new int[n](_ => 0);
    assert sa[..] == Iota(n);
    assert ranks[..] == CharRanks(s);
    ghost var finished := false;
    var k := 1;
    while k < n
      invariant k >= 1 && !finished
      invariant IsPermutation(sa[..], n) && InRange(sa[..], n)
      invariant RanksPrefixes(s, ranks[..], k)
      invariant k > 1 ==> RanksAlong(ranks[..], sa[..])
      decreases n - k
    {
      DoublingRound(s, sa, ranks, tmp, k);
      if ranks[sa[n - 1]] == n - 1 {
        finished := true;
        break;
      }
      k := 2 * k;
    }
    if !finished {
      FinalOrder(s, ranks[..], k, sa[..]);
    }
  }

  /** `lcp` holds 0 at rank 0 and the right value at every rank whose suffix starts
      before `i`. */
  ghost predicate LcpFilled(s: string, sa: seq<int>, lcp: seq<int>, i: int)
  {
    |sa| == |lcp| == |s| && InRange(sa, |s|) &&
    (|s| > 0 ==> lcp[0] == 0) &&
    forall r {:trigger lcp[r]} ::
      0 < r < |s| && sa[r] < i ==> lcp[r] == Lcp(s[sa[r - 1]..], s[sa[r]..])
  }

  /** Filling in the rank of the suffix at `i` extends `LcpFilled` to `i + 1`. */
  lemma LcpFillStep(s: string, sa: seq<int>, lcp: seq<int>, i: int, r: int)
    requires LcpFilled(s, sa, lcp, i)
    requires forall r1, r2 :: 0 <= r1 < r2 < |sa| ==> sa[r1] != sa[r2]
    requires 0 < r < |s| && sa[r] == i
    ensures LcpFilled(s, sa, lcp[r := Lcp(s[sa[r - 1]..], s[sa[r]..])], i + 1)
  {
  }

  /** The suffix at rank 0 has no predecessor and nothing to fill in. */
  lemma LcpSkip(s: string, sa: seq<int>, lcp: seq<int>, i: int)
    requires LcpFilled(s, sa, lcp, i)
    requires forall r1, r2 :: 0 <= r1 < r2 < |sa| ==> sa[r1] != sa[r2]
    requires 0 < |s| && sa[0] == i
    ensures LcpFilled(s, sa, lcp, i + 1)
  {
  }

  /** What Kasai's loop keeps about the carried length `h` at position `i`: a lower bound
      on what the suffix at `i` shares with its predecessor, and 0 when it has none. */
  ghost predicate CarryBound(s: string, sa: seq<int>, rk: seq<int>, i: int, h: int)
  {
    |sa| == |rk| == |s| && InRange(sa, |s|) && InRange(rk, |s|) && 0 <= h &&
    (0 <= i < |s| && rk[i] > 0 ==> h <= Lcp(s[i..], s[sa[rk[i] - 1]..])) &&
    (0 <= i < |s| && rk[i] == 0 ==> h == 0)
  }

  /** `rk` is the inverse of the suffix array `sa`. */
  ghost predicate InverseOf(sa: seq<int>, rk: seq<int>, n: int)
  {
    |sa| == |rk| == n && InRange(sa, n) && InRange(rk, n) &&
    forall x :: 0 <= x < n ==> sa[rk[x]] == x
  }

  /** Moving from `i` to `i + 1`: the exact length found at `i`, less one, still bounds
      the common prefix at `i + 1`. */
  lemma CarryNext(s: string, sa: seq<int>, rk: seq<int>, i: int, h0: int, h1: int)
    requires IsSuffixArray(s, sa) && InverseOf(sa, rk, |s|) && 0 <= i < |s|
    requires rk[i] > 0 ==> h0 == Lcp(s[i..], s[sa[rk[i] - 1]..])
    requires rk[i] == 0 ==> h0 == 0
    requires h1 == if h0 > 0 then h0 - 1 else h0
    ensures CarryBound(s, sa, rk, i + 1, h1)
  {
    if rk[i] > 0 && h0 >= 2 && i + 1 < |s| {
      CarryShift(s, sa, rk, i);
    }
  }

  /** The case of `CarryNext` where a match of length at least 2 is carried: the suffix at
      `i + 1` has a predecessor, and shares at least one character less with it. */
  lemma CarryShift(s: string, sa: seq<int>, rk: seq<int>, i: int)
    requires IsSuffixArray(s, sa) && InverseOf(sa, rk, |s|) && 0 <= i < |s| - 1
    requires rk[i] > 0 && Lcp(s[i..], s[sa[rk[i] - 1]..]) >= 2
    ensures rk[i + 1] > 0
    ensures Lcp(s[i..], s[sa[rk[i] - 1]..]) - 1 <= Lcp(s[i + 1..], s[sa[rk[i + 1] - 1]..])
  {
    var j := sa[rk[i] - 1];
    assert |s[j..]| >= 2;
    var r1, r2 := rk[j + 1], rk[i + 1];
    assert sa[r1] == j + 1 && sa[r2] == i + 1 && sa[rk[i]] == i;
    KasaiStep(s, sa, rk[i], r1, r2);
  }

  /** The inner loop of Kasai's algorithm: extends a known common prefix of the suffixes
      at `i` and `j` character by character until they differ or one ends. */
  method ExtendMatch(s: string, i: int, j: int, h0: int) returns (h: int)
    requires 0 <= i < |s| && 0 <= j < |s|
    requires 0 <= h0 <= Lcp(s[i..], s[j..])
    ensures h == Lcp(s[i..], s[j..])
  {
    var n := |s|;
    ghost var H := Lcp(s[i..], s[j..]);
    h := h0;
    while i + h < n && j + h < n && s[i + h] == s[j + h]
      invariant h <= H
      decreases n - h
    {
      assert s[i..][h] == s[i + h] && s[j..][h] == s[j + h];
      h := h + 1;
    }
    MatchEnd(s[i..], s[j..], h);
  }

  /** A match that is no longer than the common prefix and cannot be extended is the
      common prefix. */
  lemma MatchEnd(a: string, b: string, h: nat)
    requires h <= Lcp(a, b)
    requires !(h < |a| && h < |b| && a[h] == b[h])
    ensures h == Lcp(a, b)
  {
    var L := Lcp(a, b);
    assert a[..h] == a[..L][..h] && b[..h] == b[..L][..h];
    LcpUnique(a, b, h);
  }

  /** The inverse of the suffix array: the rank of every suffix. */
  method RankOfSuffixes(sa: array<int>, n: nat) returns (rank: array<int>)
    requires IsPermutation(sa[..], n)
    ensures InverseOf(sa[..], rank[..], n)
  {
    ghost var S := sa[..];
    PermutationFacts(S, n);
    rank := new int[n](_ => 0);
    for i := 0 to n
      invariant forall t :: 0 <= t < i ==> rank[sa[t]] == t
    {
      rank[sa[i]] := i;
    }
    forall i | 0 <= i < n
      ensures 0 <= rank[i] < n && sa[rank[i]] == i
    {
      var t := PositionOf(S, n, i);
    }
  }

  /** The bookkeeping of a visit whose suffix has a predecessor: recording the exact
      common prefix `H` at its rank and carrying `H - 1` on keeps both invariants. */
  lemma VisitMatched(s: string, sa: seq<int>, rk: seq<int>, lcp: seq<int>, i: int,
                     H: int, next: int)
    requires IsSuffixArray(s, sa) && InverseOf(sa, rk, |s|)
    requires forall r1, r2 :: 0 <= r1 < r2 < |s| ==> sa[r1] != sa[r2]
    requires 0 <= i < |s| && rk[i] > 0 && LcpFilled(s, sa, lcp, i)
    requires H == Lcp(s[i..], s[sa[rk[i] - 1]..])
    requires next == if H > 0 then H - 1 else H
    ensures LcpFilled(s, sa, lcp[rk[i] := H], i + 1)
    ensures CarryBound(s, sa, rk, i + 1, next)
  {
    LcpSymmetric(s[i..], s[sa[rk[i] - 1]..]);
    LcpFillStep(s, sa, lcp, i, rk[i]);
    CarryNext(s, sa, rk, i, H, next);
  }

  /** One visit of Kasai's loop, at the suffix starting at `i`: when it has a
      predecessor in the suffix array, extends the carried match to the exact common
      prefix, records it at the suffix's rank and carries it on less one. */
  method KasaiVisit(s: string, sa: array<int>, rank: array<int>, lcp: array<int>,
                    i: int, h: int) returns (next: int)
    requires lcp != sa && lcp != rank
    requires IsSuffixArray(s, sa[..]) && InverseOf(sa[..], rank[..], |s|)
    requires forall r1, r2 :: 0 <= r1 < r2 < |s| ==> sa[r1] != sa[r2]
    requires 0 <= i < |s| && CarryBound(s, sa[..], rank[..], i, h)
    requires LcpFilled(s, sa[..], lcp[..], i)
    modifies lcp
    ensures CarryBound(s, sa[..], rank[..], i + 1, next)
    ensures LcpFilled(s, sa[..], lcp[..], i + 1)
  {
    ghost var S, RK, L := sa[..], rank[..], lcp[..];
    next := h;
    var r := rank[i];
    if r > 0 {
      var j := sa[r - 1];
      assert RK[i] == r && S[r - 1] == j;
      next := ExtendMatch(s, i, j, next);
      ghost var H := next;
      lcp[r] := next;
      if next > 0 {
        next := next - 1;
      }
      VisitMatched(s, S, RK, L, i, H, next);
      assert lcp[..] == L[r := H];
    } else {
      LcpSkip(s, S, L, i);
      CarryNext(s, S, RK, i, next, next);
    }
  }

  /** Kasai's algorithm: `lcp[r]` is the length of the longest common prefix of the
      suffixes at ranks `r - 1` and `r`, and `lcp[0]` is 0. */
  method BuildLCP(s: string, sa: array<int>) returns (lcp: array<int>)
    requires IsSuffixArray(s, sa[..])
    ensures lcp.Length == |s|
    ensures |s| > 0 ==> lcp[0] == 0
    ensures forall r :: 0 < r < |s| ==> lcp[r] == Lcp(s[sa[r - 1]..], s[sa[r]..])
  {
    var n := |s|;
    assert forall r1, r2 :: 0 <= r1 < r2 < n ==> sa[r1] != sa[r2] by {
      PermutationFacts(sa[..], n);
    }
    var rank := RankOfSuffixes(sa, n);
    lcp := KasaiLoop(s, sa, rank);
    assert forall r :: 0 < r < n ==> lcp[..][r] == lcp[r];
  }

  /** The main loop of Kasai's algorithm: visits the suffixes in text order, carrying the
      common-prefix length `h` from one to the next. */
  method KasaiLoop(s: string, sa: array<int>, rank: array<int>) returns (lcp: array<int>)
    requires IsSuffixArray(s, sa[..]) && InverseOf(sa[..], rank[..], |s|)
    requires forall r1, r2 :: 0 <= r1 < r2 < |s| ==> sa[r1] != sa[r2]
    ensures fresh(lcp) && LcpFilled(s, sa[..], lcp[..], |s|)
  {
    var n := |s|;
    lcp := new int[n](_ => 0);
    var h := 0;
    for i := 0 to n
      modifies lcp
      invariant CarryBound(s, sa[..], rank[..], i, h)
      invariant LcpFilled(s, sa[..], lcp[..], i)
    {
      h := KasaiVisit(s, sa, rank, lcp, i, h);
    }
  }

  /** The number of distinct non-empty substrings of `s`: `n(n+1)/2` substrings by
      position, less the sum of the LCP array. */
  method CountDistinctSubstrings(s: string) returns (count: int)
    ensures count == |NonEmptySubstrings(s)|
  {
    var n := |s|;
    var sa := BuildSA(s);
    var lcp := BuildLCP(s, sa);
    var total := n * (n + 1) / 2;
    var sumLcp := 0;
    for i := 0 to lcp.Length
      invariant sumLcp == Sum(lcp[..i])
    {
      assert lcp[..i + 1][..i] == lcp[..i];
      sumLcp := sumLcp + lcp[i];
    }
    assert lcp[..lcp.Length] == lcp[..];
    assert IsLcpArray(s, sa[..], lcp[..]);
    DistinctSubstrings(s, sa[..], lcp[..]);
    count := total - sumLcp;
  }

  // ---------------------------------------------------------------- the example

  /** The example of lines 70-81: the suffix array, the LCP array and the count of
      "banana". */
  method BananaExample() returns (sa: seq<int>, lcp: seq<int>, count: int)
    ensures sa == [5, 3, 1, 0, 4, 2] && lcp == [0, 1, 3, 0, 0, 2] && count == 15
  {
    var s := "banana";
    var a := BuildSA(s);
    BananaSuffixArray();
    SuffixArrayUnique(s, a[..], [5, 3, 1, 0, 4, 2]);
    var l := BuildLCP(s, a);
    sa, lcp := a[..], l[..];
    assert IsLcpArray(s, sa, lcp);
    BananaLcp();
    LcpArrayUnique(s, sa, lcp, [0, 1, 3, 0, 0, 2]);
    count := CountDistinctSubstrings(s);
    BananaCount();
  }

  /** The suffixes of "banana" in order: a, ana, anana, banana, na, nana. */
  lemma BananaSuffixArray()
    ensures IsSuffixArray("banana", [5, 3, 1, 0, 4, 2])
  {
    BananaNeighbours();
    NeighboursSorted("banana", [5, 3, 1, 0, 4, 2]);
    BananaPermutation();
  }

  lemma BananaPermutation()
    ensures IsPermutation([5, 3, 1, 0, 4, 2], 6)
  {
    assert Iota(6) == [0, 1, 2, 3, 4, 5];
    assert multiset([5, 3, 1, 0, 4, 2]) == multiset{0, 1, 2, 3, 4, 5};
    assert multiset([0, 1, 2, 3, 4, 5]) == multiset{0, 1, 2, 3, 4, 5};
  }

  /** Each suffix of "banana" in the array is smaller than the next, and shares with it
      the prefix the LCP array records. */
  lemma BananaNeighbours()
    ensures forall r :: 0 <= r < 6 ==> 0 <= [5, 3, 1, 0, 4, 2][r] < 6
    ensures forall r :: 0 < r < 6 ==>
      LexLess("banana"[[5, 3, 1, 0, 4, 2][r - 1]..], "banana"[[5, 3, 1, 0, 4, 2][r]..]) &&
      Lcp("banana"[[5, 3, 1, 0, 4, 2][r - 1]..], "banana"[[5, 3, 1, 0, 4, 2][r]..]) == [0, 1, 3, 0, 0, 2][r]
  {
    var s, sa, lc := "banana", [5, 3, 1, 0, 4, 2], [0, 1, 3, 0, 0, 2];
    forall r | 0 < r < 6
      ensures LexLess(s[sa[r - 1]..], s[sa[r]..]) && Lcp(s[sa[r - 1]..], s[sa[r]..]) == lc[r]
    {
      if r == 1 {
        assert s[sa[0]..] == "a" && s[sa[1]..] == "ana";
        LexLessAt("a", "ana", 1);
      } else if r == 2 {
        assert s[sa[1]..] == "ana" && s[sa[2]..] == "anana";
        LexLessAt("ana", "anana", 3);
      } else if r == 3 {
        assert s[sa[2]..] == "anana" && s[sa[3]..] == "banana";
        LexLessAt("anana", "banana", 0);
      } else if r == 4 {
        assert s[sa[3]..] == "banana" && s[sa[4]..] == "na";
        LexLessAt("banana", "na", 0);
      } else {
        assert s[sa[4]..] == "na" && s[sa[5]..] == "nana";
        LexLessAt("na", "nana", 2);
      }
    }
  }

  /** The common prefixes of neighbouring suffixes of "banana". */
  lemma BananaLcp()
    ensures IsLcpArray("banana", [5, 3, 1, 0, 4, 2], [0, 1, 3, 0, 0, 2])
  {
    BananaNeighbours();
  }

  /** "banana" has 21 - 6 = 15 different non-empty substrings. */
  lemma BananaCount()
    ensures |NonEmptySubstrings("banana")| == 15
  {
    BananaSuffixArray();
    BananaLcp();
    DistinctSubstrings("banana", [5, 3, 1, 0, 4, 2], [0, 1, 3, 0, 0, 2]);
    SumSix(0, 1, 3, 0, 0, 2);
  }

  /** The suffixes of "ababa" in order: a, aba, ababa, ba, baba, with common prefixes
      of 1, 3, 0 and 2 between neighbours. */
  lemma AbabaNeighbours()
    ensures forall r :: 0 <= r < 5 ==> 0 <= [4, 2, 0, 3, 1][r] < 5
    ensures forall r :: 0 < r < 5 ==>
      LexLess("ababa"[[4, 2, 0, 3, 1][r - 1]..], "ababa"[[4, 2, 0, 3, 1][r]..]) &&
      Lcp("ababa"[[4, 2, 0, 3, 1][r - 1]..], "ababa"[[4, 2, 0, 3, 1][r]..]) == [0, 1, 3, 0, 2][r]
  {
    var s, sa, lc := "ababa", [4, 2, 0, 3, 1], [0, 1, 3, 0, 2];
    forall r | 0 < r < 5
      ensures LexLess(s[sa[r - 1]..], s[sa[r]..]) && Lcp(s[sa[r - 1]..], s[sa[r]..]) == lc[r]
    {
      if r == 1 {
        assert s[sa[0]..] == "a" && s[sa[1]..] == "aba";
        LexLessAt("a", "aba", 1);
      } else if r == 2 {
        assert s[sa[1]..] == "aba" && s[sa[2]..] == "ababa";
        LexLessAt("aba", "ababa", 3);
      } else if r == 3 {
        assert s[sa[2]..] == "ababa" && s[sa[3]..] == "ba";
        LexLessAt("ababa", "ba", 0);
      } else {
        assert s[sa[3]..] == "ba" && s[sa[4]..] == "baba";
        LexLessAt("ba", "baba", 2);
      }
    }
  }

  lemma AbabaPermutation()
    ensures IsPermutation([4, 2, 0, 3, 1], 5)
  {
    assert Iota(5) == [0, 1, 2, 3, 4];
    assert multiset([4, 2, 0, 3, 1]) == multiset{0, 1, 2, 3, 4};
    assert multiset([0, 1, 2, 3, 4]) == multiset{0, 1, 2, 3, 4};
  }

  /** "ababa" has 15 - 6 = 9 different non-empty substrings, the count the example of
      Algorithms/SuffixAutomation.java (lines 95-100) prints. */
  lemma AbabaCount()
    ensures |NonEmptySubstrings("ababa")| == 9
  {
    AbabaNeighbours();
    NeighboursSorted("ababa", [4, 2, 0, 3, 1]);
    AbabaPermutation();
    assert IsSuffixArray("ababa", [4, 2, 0, 3, 1]);
    assert IsLcpArray("ababa", [4, 2, 0, 3, 1], [0, 1, 3, 0, 2]);
    DistinctSubstrings("ababa", [4, 2, 0, 3, 1], [0, 1, 3, 0, 2]);
    SumFive(0, 1, 3, 0, 2);
  }
}
