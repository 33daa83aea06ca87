/** What the two queries of Algorithms/SuffixAutomation.java compute, proved on the
    meaning of the automaton: `distinctSubstringsCount` (lines 65-71) adds up the class
    sizes, and `longestCommonSubstring` (lines 74-91) follows the longest suffix of the
    scanned prefix of `t` that occurs in the text. */
module SuffixAutomatonQueries {
  import opened Strings
  import opened SuffixAutomatonTheory
  import opened SuffixAutomatonExtend
  import opened SuffixAutomatonGrow
  import opened SuffixAutomatonKept

  // ---------------------------------------------------------------- counting

  /** `len(v) - len(link(v))` added up over the states `1 .. n - 1`; each of them is
      longer than its link, so each adds at least one. */
  function Count(st: seq<State>, n: int): (total: int)
    requires Shape(st) && n <= |st|
    ensures n >= 1 ==> total >= n - 1
    decreases n
  {
    if n <= 1 then 0 else Count(st, n - 1) + st[n - 1].len - st[st[n - 1].link].len
  }

  /** The strings of the class of `v`. */
  ghost function ClassSet(T: seq<char>, st: seq<State>, fp: seq<int>, v: int): set<string>
    requires Base(T, st, fp) && 0 <= v < |st|
  {
    Suffixes(T, fp[v], MinLen(st, v), st[v].len)
  }

  /** The suffix of `T[..e]` of length `k`. */
  function Suf(T: seq<char>, e: int, k: int): (w: string)
    requires 0 <= k <= e <= |T|
    ensures |w| == k && EndsAt(T, w, e)
  {
    T[e - k..e]
  }

  /** The suffixes of `T[..e]` of a length in `lo .. hi`. */
  ghost function Suffixes(T: seq<char>, e: int, lo: int, hi: int): set<string>
    requires 0 <= lo && hi <= e <= |T|
  {
    set k | lo <= k <= hi :: Suf(T, e, k)
  }

  /** Suffixes of one prefix are told apart by their lengths. */
  lemma {:induction false} SuffixesCard(T: seq<char>, e: int, lo: int, hi: int)
    requires 0 <= lo <= hi + 1 && hi <= e <= |T|
    ensures |Suffixes(T, e, lo, hi)| == hi - lo + 1
    decreases hi - lo
  {
    if lo <= hi {
      SuffixesCard(T, e, lo, hi - 1);
      var w := Suf(T, e, hi);
      assert w !in Suffixes(T, e, lo, hi - 1);
      assert Suffixes(T, e, lo, hi) == Suffixes(T, e, lo, hi - 1) + {w};
    } else {
      assert Suffixes(T, e, lo, hi) == {};
    }
  }

  lemma ClassSetMember(T: seq<char>, st: seq<State>, fp: seq<int>, v: int, w: string)
    requires Base(T, st, fp) && 0 <= v < |st|
    ensures w in ClassSet(T, st, fp, v) <==> InClass(T, st, fp, w, v)
  {
    if InClass(T, st, fp, w, v) {
      assert w == Suf(T, fp[v], |w|);
    }
  }

  /** The strings of the classes of the states `1 .. n - 1`. */
  ghost function Union(T: seq<char>, st: seq<State>, fp: seq<int>, n: int): set<string>
    requires Base(T, st, fp) && n <= |st|
    decreases n
  {
    if n <= 1 then {} else Union(T, st, fp, n - 1) + ClassSet(T, st, fp, n - 1)
  }

  lemma UnionHas(T: seq<char>, st: seq<State>, fp: seq<int>, n: int, w: string, v: int)
    requires Base(T, st, fp) && n <= |st| && 1 <= v < n && InClass(T, st, fp, w, v)
    ensures w in Union(T, st, fp, n)
  {
    ClassSetMember(T, st, fp, v, w);
    UnionHasSet(T, st, fp, n, w, v);
  }

  lemma {:induction false} UnionHasSet(T: seq<char>, st: seq<State>, fp: seq<int>, n: int, w: string, v: int)
    requires Base(T, st, fp) && n <= |st| && 1 <= v < n && w in ClassSet(T, st, fp, v)
    ensures w in Union(T, st, fp, n)
    decreases n
  {
    if v < n - 1 {
      UnionHasSet(T, st, fp, n - 1, w, v);
      UnionLeft(T, st, fp, n, w);
    } else {
      UnionRight(T, st, fp, n, w);
    }
  }

  lemma UnionFrom(T: seq<char>, st: seq<State>, fp: seq<int>, n: int, w: string)
    returns (v: int)
    requires Base(T, st, fp) && n <= |st| && w in Union(T, st, fp, n)
    ensures 1 <= v < n && InClass(T, st, fp, w, v)
  {
    v := UnionFromSet(T, st, fp, n, w);
    ClassSetMember(T, st, fp, v, w);
  }

  lemma {:induction false} UnionFromSet(T: seq<char>, st: seq<State>, fp: seq<int>, n: int, w: string)
    returns (v: int)
    requires Base(T, st, fp) && n <= |st| && w in Union(T, st, fp, n)
    ensures 1 <= v < n && w in ClassSet(T, st, fp, v)
    decreases n
  {
    UnionCases(T, st, fp, n, w);
    if w in ClassSet(T, st, fp, n - 1) {
      v := n - 1;
    } else {
      v := UnionFromSet(T, st, fp, n - 1, w);
    }
  }

  lemma UnionLeft(T: seq<char>, st: seq<State>, fp: seq<int>, n: int, w: string)
    requires Base(T, st, fp) && 2 <= n <= |st| && w in Union(T, st, fp, n - 1)
    ensures w in Union(T, st, fp, n)
  {
  }

  lemma UnionRight(T: seq<char>, st: seq<State>, fp: seq<int>, n: int, w: string)
    requires Base(T, st, fp) && 2 <= n <= |st| && w in ClassSet(T, st, fp, n - 1)
    ensures w in Union(T, st, fp, n)
  {
  }

  lemma UnionCases(T: seq<char>, st: seq<State>, fp: seq<int>, n: int, w: string)
    requires Base(T, st, fp) && n <= |st| && w in Union(T, st, fp, n)
    ensures 2 <= n && (w in Union(T, st, fp, n - 1) || w in ClassSet(T, st, fp, n - 1))
  {
  }

  /** Different classes share no string, so the union has as many strings as the sizes
      of its classes add up to. */
  lemma {:induction false} UnionCard(T: seq<char>, st: seq<State>, fp: seq<int>, n: int)
    requires Base(T, st, fp) && ClassEnds(T, st, fp) && Distinct(T, st, fp) && n <= |st|
    ensures |Union(T, st, fp, n)| == Count(st, n)
    decreases n
  {
    if n > 1 {
      var v := n - 1;
      UnionCard(T, st, fp, v);
      forall w | w in Union(T, st, fp, v) && w in ClassSet(T, st, fp, v)
        ensures false
      {
        var u := UnionFrom(T, st, fp, v, w);
        ClassSetMember(T, st, fp, v, w);
        ClassUnique(T, st, fp, w, u, v);
      }
      DisjointCard(Union(T, st, fp, v), ClassSet(T, st, fp, v));
      SuffixesCard(T, fp[v], MinLen(st, v), st[v].len);
    }
  }

  lemma DisjointCard(a: set<string>, b: set<string>)
    requires forall w :: w in a && w in b ==> false
    ensures |a + b| == |a| + |b|
  {
    assert a * b == {};
  }

  /** The classes of the states other than the initial one hold exactly the non-empty
      substrings of the text. */
  lemma UnionIsAll(T: seq<char>, st: seq<State>, fp: seq<int>)
    requires Base(T, st, fp) && Covered(T, st, fp)
    ensures Union(T, st, fp, |st|) == NonEmptySubstrings(T)
  {
    forall w | w in Union(T, st, fp, |st|)
      ensures w in NonEmptySubstrings(T)
    {
      var v := UnionFrom(T, st, fp, |st|, w);
      NonEmptyOf(T, w, fp[v] - |w|, fp[v]);
    }
    forall w | w in NonEmptySubstrings(T)
      ensures w in Union(T, st, fp, |st|)
    {
      var i, j :| 0 <= i < j <= |T| && w == T[i..j];
      InUnion(T, st, fp, w, j);
    }
  }

  lemma NonEmptyOf(T: seq<char>, w: string, i: int, j: int)
    requires 0 <= i < j <= |T| && w == T[i..j]
    ensures w in NonEmptySubstrings(T)
  {
  }

  lemma InUnion(T: seq<char>, st: seq<State>, fp: seq<int>, w: string, j: int)
    requires Base(T, st, fp) && Covered(T, st, fp) && |w| >= 1 && EndsAt(T, w, j)
    ensures w in Union(T, st, fp, |st|)
  {
    assert Occurs(T, w);
    var v :| 0 <= v < |st| && InClass(T, st, fp, w, v);
    assert st[v].len >= 1 && st[0].len == 0;
    if v == 0 {
      assert false;
    }
    UnionHas(T, st, fp, |st|, w, v);
  }

  /** The sum `distinctSubstringsCount` computes is the number of different non-empty
      substrings of the text. */
  lemma CountIsDistinct(T: seq<char>, st: seq<State>, fp: seq<int>, last: int)
    requires Automaton(T, st, fp, last)
    ensures Count(st, |st|) == |NonEmptySubstrings(T)|
  {
    UnionCard(T, st, fp, |st|);
    UnionIsAll(T, st, fp);
  }

  // ---------------------------------------------------------------- the language

  /** The state reached from the initial state by the transitions spelling `w`, or -1
      when one of them is missing. */
  function Follow(st: seq<State>, w: seq<char>): (r: int)
    requires Shape(st)
    ensures -1 <= r < |st|
  {
    if |w| == 0 then 0
    else
      var u := Follow(st, w[..|w| - 1]);
      var a := w[|w| - 1];
      if u != -1 && a in st[u].next then st[u].next[a] else -1
  }

  /** The automaton of `T` recognises exactly the substrings of `T`: the transitions
      spelling `w` exist all the way from the initial state if and only if `w` occurs,
      and they then lead to the class of `w`. */
  lemma {:induction false} FollowOccurs(T: seq<char>, st: seq<State>, fp: seq<int>, last: int, w: seq<char>)
    requires Automaton(T, st, fp, last)
    ensures Follow(st, w) != -1 <==> Occurs(T, w)
    ensures Follow(st, w) != -1 ==> InClass(T, st, fp, w, Follow(st, w))
  {
    if |w| == 0 {
      assert EndsAt(T, w, 0);
    } else {
      var x, a := w[..|w| - 1], w[|w| - 1];
      assert w == x + [a];
      FollowOccurs(T, st, fp, last, x);
      var u := Follow(st, x);
      if u != -1 && a in st[u].next {
        ExtendClass(T, st, fp, x, u, a);
      } else if Occurs(T, w) {
        var e :| EndsAt(T, x + [a], e);
        DropLast(T, x, a, e);
        if u != -1 {
          ClassSameEnds(T, st, fp, x, u, e - 1);
          assert Extends(T, Long(T, st, fp, u), a);
        }
        assert false;
      }
    }
  }

  // ---------------------------------------------------------------- longest common substring

  /** `w` occurs in both strings. */
  ghost predicate Common(T: seq<char>, t: seq<char>, w: seq<char>)
  {
    Occurs(T, w) && Occurs(t, w)
  }

  /** `k` is the length of a longest common substring of `T` and `t`. */
  ghost predicate IsLcs(T: seq<char>, t: seq<char>, k: int)
  {
    (exists w :: |w| == k && Common(T, t, w)) &&
    forall w :: Common(T, t, w) ==> |w| <= k
  }

  /** The length of a longest common substring is unique. */
  lemma LcsUnique(T: seq<char>, t: seq<char>, k: int, k': int)
    requires IsLcs(T, t, k) && IsLcs(T, t, k')
    ensures k == k'
  {
    var w :| |w| == k && Common(T, t, w);
    var w' :| |w'| == k' && Common(T, t, w');
  }

  /** No suffix of `t[..i]` longer than `l` occurs in `T`. */
  ghost predicate Longest(T: seq<char>, t: seq<char>, i: int, l: int)
  {
    forall y {:trigger EndsAt(t, y, i)} :: EndsAt(t, y, i) && Occurs(T, y) ==> |y| <= l
  }

  /** No suffix of `t[..i]` longer than `k` occurs in `T` followed by `a`. */
  ghost predicate NoneExtends(T: seq<char>, t: seq<char>, i: int, a: char, k: int)
  {
    forall y {:trigger EndsAt(t, y, i)} :: EndsAt(t, y, i) && |y| > k ==> !Extends(T, y, a)
  }

  /** A string of a class extended along a transition belongs to the target class. */
  lemma ExtendClass(T: seq<char>, st: seq<State>, fp: seq<int>, x: seq<char>, v: int, a: char)
    requires Base(T, st, fp) && ClassEnds(T, st, fp) && Distinct(T, st, fp) && Covered(T, st, fp)
    requires Targets(T, st, fp) && 0 <= v < |st| && InClass(T, st, fp, x, v) && a in st[v].next
    ensures InClass(T, st, fp, x + [a], st[v].next[a])
  {
    var lv := Long(T, st, fp, v);
    var u := st[v].next[a];
    assert InClass(T, st, fp, lv + [a], u);
    forall e ensures EndsAt(T, x, e) <==> EndsAt(T, lv, e) {
      ClassSameEnds(T, st, fp, x, v, e);
    }
    AppendSameEnds(T, x, lv, a);
    assert EndsAt(T, x + [a], fp[u]);
    SameEndsSameClass(T, st, fp, x + [a], lv + [a], u);
  }

  /** Suffixes that do not occur cannot occur followed by anything. */
  lemma StartFall(T: seq<char>, t: seq<char>, i: int, a: char, l: int)
    requires Longest(T, t, i, l)
    ensures NoneExtends(T, t, i, a, l)
  {
  }

  /** A suffix of `t[..i + 1]` that occurs in `T` is a suffix of `t[..i]` occurring
      followed by `t[i]`, extended. */
  lemma LongestStep(T: seq<char>, t: seq<char>, i: int, k: int)
    requires 0 <= i < |t| && -1 <= k && NoneExtends(T, t, i, t[i], k)
    ensures Longest(T, t, i + 1, k + 1)
  {
    forall y | EndsAt(t, y, i + 1) && Occurs(T, y)
      ensures |y| <= k + 1
    {
      if |y| > k + 1 {
        var y' := y[..|y| - 1];
        assert y == y' + [y[|y| - 1]];
        DropLast(t, y', y[|y| - 1], i + 1);
        var e :| EndsAt(T, y, e);
        DropLast(T, y', t[i], e);
        assert Extends(T, y', t[i]);
        assert false;
      }
    }
  }

  /** Of two strings ending at `e` in `A`, the shorter one ends wherever the longer one
      does in `B`. */
  lemma CrossSuffix(A: seq<char>, B: seq<char>, x: seq<char>, y: seq<char>, e: int, f: int)
    requires EndsAt(A, x, e) && EndsAt(A, y, e) && |x| <= |y| && EndsAt(B, y, f)
    ensures EndsAt(B, x, f)
  {
    assert x == y[|y| - |x|..];
    assert B[f - |x|..f] == B[f - |y|..f][|y| - |x|..];
  }

  /** Following the link of a state without a transition on `a`: none of its strings
      occurs followed by `a`, and the longest string of the link is still a suffix of
      `t[..i]`. */
  lemma FallStep(T: seq<char>, st: seq<State>, fp: seq<int>, t: seq<char>, i: int, a: char,
                 cur: int, z: seq<char>)
    requires Base(T, st, fp) && LinkSuffixes(T, st, fp) && ClassEnds(T, st, fp) && Keys(T, st, fp)
    requires 0 <= cur < |st| && EndsAt(t, z, i) && InClass(T, st, fp, z, cur)
    requires a !in st[cur].next && NoneExtends(T, t, i, a, |z|)
    ensures NoneExtends(T, t, i, a, Bound(st, st[cur].link))
    ensures st[cur].link != -1 ==>
      EndsAt(t, Long(T, st, fp, st[cur].link), i) &&
      InClass(T, st, fp, Long(T, st, fp, st[cur].link), st[cur].link)
  {
    var lc := Long(T, st, fp, cur);
    forall y | EndsAt(t, y, i) && |y| > Bound(st, st[cur].link)
      ensures !Extends(T, y, a)
    {
      if |y| <= |z| {
        CrossSuffix(t, T, y, z, i, fp[cur]);
        assert InClass(T, st, fp, y, cur);
        forall e ensures EndsAt(T, y, e) <==> EndsAt(T, lc, e) {
          ClassSameEnds(T, st, fp, y, cur, e);
        }
        SameEndsExtends(T, y, lc, a);
      }
    }
    if st[cur].link != -1 {
      var u := st[cur].link;
      if cur == 0 {
        assert false;
      }
      assert EndsAt(T, Long(T, st, fp, u), fp[cur]);
      CrossSuffix(T, t, Long(T, st, fp, u), z, fp[cur], i);
    }
  }

  /** Taking the transition on `t[i]` from the class of a suffix `x` of `t[..i]`, when no
      longer suffix occurs followed by `t[i]`. */
  lemma Advance(T: seq<char>, st: seq<State>, fp: seq<int>, t: seq<char>, i: int, x: seq<char>, v: int)
    requires Base(T, st, fp) && ClassEnds(T, st, fp) && Distinct(T, st, fp) && Covered(T, st, fp)
    requires Targets(T, st, fp) && 0 <= i < |t| && 0 <= v < |st|
    requires EndsAt(t, x, i) && InClass(T, st, fp, x, v) && t[i] in st[v].next
    requires NoneExtends(T, t, i, t[i], |x|)
    ensures EndsAt(t, x + [t[i]], i + 1) && InClass(T, st, fp, x + [t[i]], st[v].next[t[i]])
    ensures Longest(T, t, i + 1, |x| + 1)
  {
    AppendOne(t, x, t[i], i + 1);
    ExtendClass(T, st, fp, x, v, t[i]);
    LongestStep(T, t, i, |x|);
  }

  lemma LongestMono(T: seq<char>, t: seq<char>, i: int, l: int, l': int)
    requires Longest(T, t, i, l) && l <= l'
    ensures Longest(T, t, i, l')
  {
  }

  /** No suffix of any prefix `t[..j]`, `j <= i`, that occurs in `T` is longer than `k`. */
  ghost predicate LongestUpTo(T: seq<char>, t: seq<char>, i: int, k: int)
  {
    forall j :: 0 <= j <= i ==> Longest(T, t, j, k)
  }

  /** The bound `k` carried over prefixes extends by one prefix of bound `l`. */
  lemma LongestUpToStep(T: seq<char>, t: seq<char>, i: int, k: int, l: int, k': int)
    requires LongestUpTo(T, t, i, k) && Longest(T, t, i + 1, l) && k <= k' && l <= k'
    ensures LongestUpTo(T, t, i + 1, k')
  {
    forall j | 0 <= j <= i + 1
      ensures Longest(T, t, j, k')
    {
      if j <= i {
        LongestMono(T, t, j, k, k');
      } else {
        LongestMono(T, t, j, l, k');
      }
    }
  }

  /** A common substring of length `k` with `k` bounding the matches at every prefix of
      `t` is a longest common substring. */
  lemma LcsOf(T: seq<char>, t: seq<char>, k: int, w: seq<char>)
    requires LongestUpTo(T, t, |t|, k) && |w| == k && Common(T, t, w)
    ensures IsLcs(T, t, k)
  {
    forall y | Common(T, t, y)
      ensures |y| <= k
    {
      var e :| EndsAt(t, y, e);
      assert Longest(T, t, e, k);
    }
  }
}
