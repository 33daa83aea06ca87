/** The suffix automaton object of Algorithms/SuffixAutomation.java: an arena `st` of
    states and the state `last` of the whole text, updated in place by `extend`, with the
    text read so far and one end position per state kept as ghost state. */
module SuffixAutomation {
  import opened Strings
  import opened SuffixAutomatonTheory
  import opened SuffixAutomatonExtend
  import opened SuffixAutomatonGrow
  import opened SuffixAutomatonKept
  import opened SuffixAutomatonQueries
  import SuffixArrayLcp

  /** The initial state alone (lines 28-30) is the automaton of the empty text. */
  lemma Initial()
    ensures Automaton([], [State(0, -1, map[])], [0], 0)
  {
    InitialBase();
    InitialClasses();
    InitialCovered();
    InitialKeys();
  }

  lemma InitialBase()
    ensures Base([], [State(0, -1, map[])], [0])
  {
  }

  lemma InitialClasses()
    ensures Base([], [State(0, -1, map[])], [0])
    ensures LinkSuffixes([], [State(0, -1, map[])], [0]) && ClassEnds([], [State(0, -1, map[])], [0])
    ensures Distinct([], [State(0, -1, map[])], [0]) && Targets([], [State(0, -1, map[])], [0])
  {
    InitialBase();
    InitialEnds();
    InitialTargets();
  }

  lemma InitialEnds()
    ensures Base([], [State(0, -1, map[])], [0]) && ClassEnds([], [State(0, -1, map[])], [0])
  {
    InitialBase();
  }

  lemma InitialTargets()
    ensures Base([], [State(0, -1, map[])], [0]) && Targets([], [State(0, -1, map[])], [0])
  {
    InitialBase();
  }

  lemma InitialCovered()
    ensures Base([], [State(0, -1, map[])], [0]) && Covered([], [State(0, -1, map[])], [0])
  {
    InitialBase();
    var st := [State(0, -1, map[])];
    forall w | Occurs([], w)
      ensures exists v :: 0 <= v < |st| && InClass([], st, [0], w, v)
    {
      assert InClass([], st, [0], w, 0);
    }
  }

  lemma InitialKeys()
    ensures Base([], [State(0, -1, map[])], [0]) && Keys([], [State(0, -1, map[])], [0])
  {
    InitialBase();
  }

  /** Lines 48-57: the clone of `q` is appended to the arena, and the transitions on `c`
      into `q` along the suffix-link chain from `p` are redirected to it. */
  method CloneAndRedirect(st: seq<State>, p: int, c: char) returns (a: seq<State>)
    requires Linked(st, |st|) && InRange(st) && 0 <= p < |st| && ChainHas(st, |st|, p, c)
    ensures a == Redirected(st, p, c)
  {
    var q := st[p].next[c];
    var clone := |st|;
    ghost var s3 := CloneOf(st, p, c);
    AppendCloneKeeps(st, s3);
    ChainHasAppend(st, s3, p, c);
    a := st + [State(st[p].len + 1, st[q].link, st[q].next)];
    assert a == st + [s3];
    var p' := p;
    while p' != -1 && a[p'].next[c] == q
      invariant |a| == clone + 1 && Linked(a, clone) && -1 <= p' < clone
      invariant ChainHas(a, clone, p', c)
      invariant Redirect(a, p', c, q, clone) == Redirected(st, p, c)
      decreases Bound(a, p') + 1
    {
      RedirectStep(a, p', c, q, clone);
      var link := a[p'].link;
      a := AddTransition(a, p', c, clone);
      p' := link;
    }
  }

  /** One step of the second walk keeps its invariant: the rest of the chain still has
      transitions on `c`, and what is left to redirect is the same. */
  lemma RedirectStep(a: seq<State>, p: int, c: char, q: int, clone: int)
    requires |a| == clone + 1 && Linked(a, clone) && 0 <= p < clone && ChainHas(a, clone, p, c)
    requires a[p].next[c] == q
    ensures var a' := AddTransition(a, p, c, clone);
      |a'| == clone + 1 && Linked(a', clone) && -1 <= a[p].link < clone && ChainHas(a', clone, a[p].link, c) &&
      Redirect(a', a[p].link, c, q, clone) == Redirect(a, p, c, q, clone)
  {
    ChainHasAdd(a, clone, a[p].link, p, c, clone);
  }

  /** The two walks of `extend` (lines 35-61) on the arena `st`: the new state `cur` gets
      transitions from the suffix-link chain of `last`, and, when the state reached by `c`
      is too long, a clone takes over its shorter strings. */
  method ExtendArena(ghost T: string, st: seq<State>, ghost fp: seq<int>, last: int, c: char)
    returns (a: seq<State>, cur: int)
    requires Automaton(T, st, fp, last)
    ensures (a, cur) == Extended(st, last, c)
  {
    a := st;
    cur := |a|;
    a := a + [State(a[last].len + 1, -1, map[])];
    assert a == Appended(st, last);
    var p := last;
    while p != -1 && c !in a[p].next
      invariant Linked(a, |a|) && -1 <= p < |a| && 0 <= cur < |a|
      invariant AddWalk(a, p, c, cur) == Walked(st, last, c)
      decreases Bound(a, p) + 1
    {
      AddTransitionLinked(a, |a|, p, c, cur);
      a := a[p := a[p].(next := a[p].next[c := cur])];
      p := a[p].link;
    }
    if p == -1 {
      a := a[cur := a[cur].(link := 0)];
    } else {
      var q := a[p].next[c];
      if a[p].len + 1 == a[q].len {
        a := a[cur := a[cur].(link := q)];
      } else {
        var clone := |a|;
        assert (a, p) == Walked(st, last, c);
        SecondWalkHas(T, st, fp, last, c);
        a := CloneAndRedirect(a, p, c);
        a := a[q := a[q].(link := clone)][cur := a[cur].(link := clone)];
      }
    }
  }

  /** What `ExtendArena` leaves is the automaton of the text extended by `c`, with the
      new state as its last. */
  lemma ExtendedAutomaton(T: string, st: seq<State>, fp: seq<int>, last: int, c: char,
                          a: seq<State>, cur: int) returns (fp': seq<int>)
    requires Automaton(T, st, fp, last) && (a, cur) == Extended(st, last, c)
    ensures Automaton(T + [c], a, fp', cur)
  {
    fp' := ExtendKeeps(T, st, fp, last, c);
  }

  class SuffixAutomation {
    var st: seq<State>
    var last: int
    ghost var text: string
    ghost var fp: seq<int>

    ghost predicate Valid()
      reads this
    {
      Automaton(text, st, fp, last)
    }

    /** Lines 27-32: the automaton of `s`, built one character at a time. */
    constructor (s: string)
      ensures Valid() && text == s
    {
      st := [State(0, -1, map[])];
      last := 0;
      text := [];
      fp := [0];
      new;
      Initial();
      for i := 0 to |s|
        invariant Valid() && text == s[..i]
      {
        assert s[..i + 1] == s[..i] + [s[i]];
        Extend(s[i]);
      }
    }

    /** Lines 34-62: appends `c` to the text. */
    method Extend(c: char)
      requires Valid()
      modifies this
      ensures Valid() && text == old(text) + [c]
      ensures (st, last) == Extended(old(st), old(last), c)
    {
      ghost var T, fp0 := text, fp;
      var a, cur := ExtendArena(T, st, fp0, last, c);
      ghost var fp' := ExtendedAutomaton(T, st, fp0, last, c, a, cur);
      st, last, text, fp := a, cur, T + [c], fp';
    }

    /** Lines 65-71: the number of different non-empty substrings of the text. */
    method DistinctSubstringsCount() returns (res: int)
      requires Valid()
      ensures res == |NonEmptySubstrings(text)|
    {
      res := 0;
      for i := 1 to |st|
        invariant res == Count(st, i)
      {
        res := res + st[i].len - st[st[i].link].len;
      }
      CountIsDistinct(text, st, fp, last);
    }

    /** Lines 74-91: the length of a longest common substring of the text and `t`. */
    method LongestCommonSubstring(t: string) returns (best: int)
      requires Valid()
      ensures IsLcs(text, t, best)
    {
      best := Lcs(text, st, fp, t);
    }
  }

  /** The parts of the automaton invariant the matching walk relies on. */
  ghost predicate Matchable(T: string, st: seq<State>, fp: seq<int>)
  {
    Base(T, st, fp) && LinkSuffixes(T, st, fp) && ClassEnds(T, st, fp) &&
    Covered(T, st, fp) && Distinct(T, st, fp) && Keys(T, st, fp) && Targets(T, st, fp)
  }

  /** Lines 80-83: from the state `v` of the suffix `x` of `t[..i]`, the suffix links are
      followed until a state with a transition on `a` is found (`z` is then the longest
      string of that state, and no longer suffix of `t[..i]` occurs followed by `a`) or the
      chain runs out (and no suffix of `t[..i]` at all occurs followed by `a`). */
  method Fall(ghost T: string, st: seq<State>, ghost fp: seq<int>, t: string, i: int, a: char,
              v: int, ghost x: string) returns (u: int, ghost z: string)
    requires Matchable(T, st, fp) && 0 <= i <= |t| && 0 <= v < |st|
    requires EndsAt(t, x, i) && InClass(T, st, fp, x, v) && Longest(T, t, i, |x|)
    requires a !in st[v].next
    ensures -1 <= u < |st|
    ensures u == -1 ==> NoneExtends(T, t, i, a, -1)
    ensures u != -1 ==>
      EndsAt(t, z, i) && InClass(T, st, fp, z, u) && |z| == st[u].len && a in st[u].next &&
      NoneExtends(T, t, i, a, |z|)
  {
    StartFall(T, t, i, a, |x|);
    u, z := v, x;
    while u != -1 && a !in st[u].next
      invariant -1 <= u < |st|
      invariant u != -1 ==>
        EndsAt(t, z, i) && InClass(T, st, fp, z, u) && (u == v || |z| == st[u].len)
      invariant u == v ==> z == x
      invariant NoneExtends(T, t, i, a, if u == -1 then -1 else |z|)
      decreases Bound(st, u) + 1
    {
      FallStep(T, st, fp, t, i, a, u, z);
      if st[u].link != -1 {
        z := Long(T, st, fp, st[u].link);
      }
      u := st[u].link;
    }
  }

  /** Lines 78-88: one character `t[i]` of the walk. From the state `v` of the longest
      suffix `x` of `t[..i]` occurring in `T`, the state `u` of the longest suffix `y`
      of `t[..i + 1]` occurring in `T`, and its length. */
  method Feed(ghost T: string, st: seq<State>, ghost fp: seq<int>, t: string, i: int,
              v: int, k: int, ghost x: string) returns (u: int, l: int, ghost y: string)
    requires Matchable(T, st, fp) && 0 <= i < |t| && 0 <= v < |st| && k == |x|
    requires EndsAt(t, x, i) && InClass(T, st, fp, x, v) && Longest(T, t, i, |x|)
    ensures 0 <= u < |st| && l == |y| && EndsAt(t, y, i + 1) && InClass(T, st, fp, y, u)
    ensures Longest(T, t, i + 1, l)
  {
    var c := t[i];
    if c in st[v].next {
      StartFall(T, t, i, c, |x|);
      Advance(T, st, fp, t, i, x, v);
      u, l := st[v].next[c], k + 1;
      y := x + [c];
    } else {
      var w, z := Fall(T, st, fp, t, i, c, v, x);
      if w == -1 {
        LongestStep(T, t, i, -1);
        u, l := 0, 0;
        y := [];
      } else {
        Advance(T, st, fp, t, i, z, w);
        u, l := st[w].next[c], st[w].len + 1;
        y := z + [c];
      }
    }
  }

  /** The matching walk of `longestCommonSubstring` (lines 74-91) over the automaton
      `st` of `T`: the best length seen over all prefixes of `t`. */
  method Lcs(ghost T: string, st: seq<State>, ghost fp: seq<int>, t: string) returns (best: int)
    requires Matchable(T, st, fp)
    ensures IsLcs(T, t, best)
  {
    var v, l := 0, 0;
    best := 0;
    ghost var x: string := [];
    ghost var bw: string, bj, be := [], 0, 0;
    for i := 0 to |t|
      invariant 0 <= v < |st| && l == |x| && EndsAt(t, x, i) && InClass(T, st, fp, x, v)
      invariant Longest(T, t, i, l)
      invariant |bw| == best && EndsAt(t, bw, bj) && EndsAt(T, bw, be)
      invariant LongestUpTo(T, t, i, best)
    {
      ghost var best0 := best;
      v, l, x := Feed(T, st, fp, t, i, v, l, x);
      if l > best {
        best := l;
        bw, bj, be := x, i + 1, fp[v];
      }
      LongestUpToStep(T, t, i, best0, l, best);
    }
    LcsOf(T, t, best, bw);
  }

  /** The example of lines 95-100: "ababa" has 9 different non-empty substrings. */
  method CountExample() returns (r: int)
    ensures r == 9
  {
    var sam := new SuffixAutomation("ababa");
    r := sam.DistinctSubstringsCount();
    SuffixArrayLcp.AbabaCount();
  }

  /** The example of lines 95-104: the longest common substring of "ababa" and "baba"
      is "baba". */
  method LcsExample() returns (r: int)
    ensures r == 4
  {
    var sam := new SuffixAutomation("ababa");
    r := sam.LongestCommonSubstring("baba");
    ExampleLcs();
    LcsUnique("ababa", "baba", r, 4);
  }

  lemma ExampleLcs()
    ensures IsLcs("ababa", "baba", 4)
  {
    assert EndsAt("ababa", "baba", 5);
    assert EndsAt("baba", "baba", 4);
    assert Common("ababa", "baba", "baba");
  }
}
