/** What a suffix automaton over a text `T` means (Algorithms/SuffixAutomation.java):
    every state stands for a class of substrings of `T` that end at the same positions,
    namely the suffixes of its longest member `Long` whose lengths lie between
    `MinLen` and `len`; the suffix link leads to the class of the next shorter suffix,
    and a transition on `a` leads to the class of the member extended by `a`. */
module SuffixAutomatonTheory {

  datatype State = State(len: int, link: int, next: map<char, int>)

  // ---------------------------------------------------------------- occurrences

  /** `w` occurs in `T` ending just before position `e`. */
  predicate EndsAt(T: seq<char>, w: seq<char>, e: int)
  {
    |w| <= e <= |T| && T[e - |w|..e] == w
  }

  ghost predicate Occurs(T: seq<char>, w: seq<char>)
  {
    exists e :: EndsAt(T, w, e)
  }

  /** `w` occurs in `T` followed by `a`. */
  ghost predicate Extends(T: seq<char>, w: seq<char>, a: char)
  {
    exists e :: EndsAt(T, w, e) && e < |T| && T[e] == a
  }

  /** If `x` is the shorter of two strings ending at `e`, it is a suffix of the other and
      so ends wherever the other does. */
  lemma SuffixEndsAt(T: seq<char>, x: seq<char>, y: seq<char>, e: int, e': int)
    requires EndsAt(T, x, e) && EndsAt(T, y, e) && |x| <= |y| && EndsAt(T, y, e')
    ensures EndsAt(T, x, e')
  {
    assert T[e - |y|..e][|y| - |x|..] == T[e - |x|..e];
    assert T[e' - |y|..e'][|y| - |x|..] == T[e' - |x|..e'];
  }

  lemma ExtendsSuffix(T: seq<char>, x: seq<char>, y: seq<char>, e: int, a: char)
    requires EndsAt(T, x, e) && EndsAt(T, y, e) && |x| <= |y| && Extends(T, y, a)
    ensures Extends(T, x, a)
  {
    var e' :| EndsAt(T, y, e') && e' < |T| && T[e'] == a;
    SuffixEndsAt(T, x, y, e, e');
  }

  /** Appending a character does not change the occurrences ending within the old text. */
  lemma EndsAtGrow(T: seq<char>, a: char, w: seq<char>, e: int)
    requires e <= |T|
    ensures EndsAt(T + [a], w, e) <==> EndsAt(T, w, e)
  {
    if |w| <= e && 0 <= e {
      assert (T + [a])[e - |w|..e] == T[e - |w|..e];
    }
  }

  /** A non-empty suffix of `T + [a]` is a suffix of `T` followed by `a`. */
  lemma EndsAtLast(T: seq<char>, a: char, w: seq<char>)
    requires |w| >= 1
    ensures EndsAt(T + [a], w, |T| + 1) <==> (w[|w| - 1] == a && EndsAt(T, w[..|w| - 1], |T|))
  {
    var T' := T + [a];
    if |w| <= |T| + 1 {
      assert T'[|T| + 1 - |w|..|T| + 1] == T[|T| + 1 - |w|..] + [a];
      if EndsAt(T', w, |T| + 1) {
        assert w[..|w| - 1] == T[|T| + 1 - |w|..];
      }
      if w[|w| - 1] == a && EndsAt(T, w[..|w| - 1], |T|) {
        assert w == w[..|w| - 1] + [a];
      }
    }
  }

  // ---------------------------------------------------------------- the arena

  /** States below `n` have non-negative lengths and links below `n` to strictly
      shorter states, or the link -1. */
  predicate Linked(st: seq<State>, n: int)
  {
    n <= |st| &&
    forall v {:trigger st[v].link} :: 0 <= v < n ==>
      st[v].len >= 0 && -1 <= st[v].link < n && (st[v].link != -1 ==> st[st[v].link].len < st[v].len)
  }

  /** Every transition leads to a state of the arena. */
  predicate InRange(st: seq<State>)
  {
    forall v, a :: 0 <= v < |st| && a in st[v].next ==> 0 <= st[v].next[a] < |st|
  }

  /** State 0 is the initial state (`len` 0, no link); every other state has a link. */
  predicate Shape(st: seq<State>)
  {
    |st| >= 1 && st[0].len == 0 && st[0].link == -1 && Linked(st, |st|) && InRange(st) &&
    forall v {:trigger st[v].link} :: 1 <= v < |st| ==> st[v].link != -1
  }

  /** `fp[v]` is one end position of the longest string of state `v`. */
  ghost predicate Base(T: seq<char>, st: seq<State>, fp: seq<int>)
  {
    Shape(st) && |fp| == |st| && forall v :: 0 <= v < |st| ==> 0 <= st[v].len <= fp[v] <= |T|
  }

  /** The longest string of the class of `v`. */
  ghost function Long(T: seq<char>, st: seq<State>, fp: seq<int>, v: int): (w: seq<char>)
    requires Base(T, st, fp) && 0 <= v < |st|
    ensures |w| == st[v].len && EndsAt(T, w, fp[v])
  {
    T[fp[v] - st[v].len..fp[v]]
  }

  /** The length of the shortest string of the class of `v`. */
  function MinLen(st: seq<State>, v: int): int
    requires Linked(st, |st|) && 0 <= v < |st|
  {
    if st[v].link == -1 then 0 else st[st[v].link].len + 1
  }

  /** `w` belongs to the class of `v`: a suffix of `Long(v)` of a length in the class. */
  ghost predicate InClass(T: seq<char>, st: seq<State>, fp: seq<int>, w: seq<char>, v: int)
    requires Base(T, st, fp) && 0 <= v < |st|
  {
    MinLen(st, v) <= |w| <= st[v].len && EndsAt(T, w, fp[v])
  }

  /** The link of `v` holds a suffix of `Long(v)`. */
  ghost predicate LinkSuffixes(T: seq<char>, st: seq<State>, fp: seq<int>)
    requires Base(T, st, fp)
  {
    forall v {:trigger Long(T, st, fp, st[v].link)} :: 1 <= v < |st| ==>
      EndsAt(T, Long(T, st, fp, st[v].link), fp[v])
  }

  /** All strings of a class end where its longest string does. */
  ghost predicate ClassEnds(T: seq<char>, st: seq<State>, fp: seq<int>)
    requires Base(T, st, fp)
  {
    forall v, w, e {:trigger InClass(T, st, fp, w, v), EndsAt(T, w, e)} ::
      0 <= v < |st| && InClass(T, st, fp, w, v) && EndsAt(T, w, e) ==>
        EndsAt(T, Long(T, st, fp, v), e)
  }

  /** Every substring of `T`, the empty one included, belongs to some class. */
  ghost predicate Covered(T: seq<char>, st: seq<State>, fp: seq<int>)
    requires Base(T, st, fp)
  {
    forall w {:trigger Occurs(T, w)} :: Occurs(T, w) ==>
      exists v :: 0 <= v < |st| && InClass(T, st, fp, w, v)
  }

  /** Some position ends one of `x`, `y` and not the other. */
  ghost predicate Differ(T: seq<char>, x: seq<char>, y: seq<char>)
  {
    exists e :: EndsAt(T, x, e) != EndsAt(T, y, e)
  }

  /** Different states have different end positions. */
  ghost predicate Distinct(T: seq<char>, st: seq<State>, fp: seq<int>)
    requires Base(T, st, fp)
  {
    forall u, v :: 0 <= u < |st| && 0 <= v < |st| && u != v ==>
      Differ(T, Long(T, st, fp, u), Long(T, st, fp, v))
  }

  /** `v` has a transition on `a` exactly when its strings occur followed by `a`. */
  ghost predicate Keys(T: seq<char>, st: seq<State>, fp: seq<int>)
    requires Base(T, st, fp)
  {
    forall v, a :: 0 <= v < |st| ==> (a in st[v].next <==> Extends(T, Long(T, st, fp, v), a))
  }

  /** The transition on `a` leads to the class of `Long(v)` extended by `a`. */
  ghost predicate Targets(T: seq<char>, st: seq<State>, fp: seq<int>)
    requires Base(T, st, fp)
  {
    forall v, a {:trigger st[v].next[a]} :: 0 <= v < |st| && a in st[v].next ==>
      InClass(T, st, fp, Long(T, st, fp, v) + [a], st[v].next[a])
  }

  /** The suffix automaton of `T`, with `last` the state of the whole text. */
  ghost predicate Automaton(T: seq<char>, st: seq<State>, fp: seq<int>, last: int)
  {
    Base(T, st, fp) && 0 <= last < |st| && st[last].len == |T| && fp[last] == |T| &&
    LinkSuffixes(T, st, fp) && ClassEnds(T, st, fp) && Covered(T, st, fp) &&
    Distinct(T, st, fp) && Keys(T, st, fp) && Targets(T, st, fp)
  }

  // ---------------------------------------------------------------- classes

  lemma LongInClass(T: seq<char>, st: seq<State>, fp: seq<int>, v: int)
    requires Base(T, st, fp) && 0 <= v < |st|
    ensures InClass(T, st, fp, Long(T, st, fp, v), v)
  {
  }

  /** The strings of a class end exactly where its longest string does. */
  lemma ClassSameEnds(T: seq<char>, st: seq<State>, fp: seq<int>, w: seq<char>, v: int, e: int)
    requires Base(T, st, fp) && ClassEnds(T, st, fp) && 0 <= v < |st| && InClass(T, st, fp, w, v)
    ensures EndsAt(T, w, e) <==> EndsAt(T, Long(T, st, fp, v), e)
  {
    if EndsAt(T, Long(T, st, fp, v), e) {
      SuffixEndsAt(T, w, Long(T, st, fp, v), fp[v], e);
    }
  }

  /** A string belongs to at most one class. */
  lemma ClassUnique(T: seq<char>, st: seq<State>, fp: seq<int>, w: seq<char>, u: int, v: int)
    requires Base(T, st, fp) && ClassEnds(T, st, fp) && Distinct(T, st, fp)
    requires 0 <= u < |st| && 0 <= v < |st| && InClass(T, st, fp, w, u) && InClass(T, st, fp, w, v)
    ensures u == v
  {
    if u != v {
      var e :| EndsAt(T, Long(T, st, fp, u), e) != EndsAt(T, Long(T, st, fp, v), e);
      ClassSameEnds(T, st, fp, w, u, e);
      ClassSameEnds(T, st, fp, w, v, e);
    }
  }

  /** A substring ending exactly where a member of the class of `u` does belongs to it. */
  lemma SameEndsSameClass(T: seq<char>, st: seq<State>, fp: seq<int>, w: seq<char>, x: seq<char>, u: int)
    requires Base(T, st, fp) && ClassEnds(T, st, fp) && Distinct(T, st, fp) && Covered(T, st, fp)
    requires 0 <= u < |st| && InClass(T, st, fp, x, u) && Occurs(T, w)
    requires forall e :: EndsAt(T, w, e) <==> EndsAt(T, x, e)
    ensures InClass(T, st, fp, w, u)
  {
    var v :| 0 <= v < |st| && InClass(T, st, fp, w, v);
    if v != u {
      var e :| EndsAt(T, Long(T, st, fp, v), e) != EndsAt(T, Long(T, st, fp, u), e);
      ClassSameEnds(T, st, fp, w, v, e);
      ClassSameEnds(T, st, fp, x, u, e);
      assert false;
    }
  }

  /** Every suffix of `Long(u)` belongs to the class of a state along the links from `u`,
      whose longest string is itself a suffix of `Long(u)`. */
  lemma {:induction false} ClassOfSuffix(T: seq<char>, st: seq<State>, fp: seq<int>, u: int, w: seq<char>)
    returns (v: int)
    requires Base(T, st, fp) && LinkSuffixes(T, st, fp) && 0 <= u < |st|
    requires EndsAt(T, w, fp[u]) && |w| <= st[u].len
    ensures 0 <= v < |st| && InClass(T, st, fp, w, v)
    ensures EndsAt(T, Long(T, st, fp, v), fp[u]) && st[v].len <= st[u].len
    decreases st[u].len
  {
    if |w| >= MinLen(st, u) {
      return u;
    }
    assert u != 0;
    var u' := st[u].link;
    assert 0 <= u' < |st| && |w| <= st[u'].len < st[u].len;
    var lu' := Long(T, st, fp, u');
    assert EndsAt(T, lu', fp[u]);
    SuffixEndsAt(T, w, lu', fp[u], fp[u']);
    v := ClassOfSuffix(T, st, fp, u', w);
    SuffixEndsAt(T, Long(T, st, fp, v), lu', fp[u'], fp[u]);
  }

  /** `v` stands for suffixes of the whole text. */
  ghost predicate SufState(T: seq<char>, st: seq<State>, fp: seq<int>, v: int)
    requires Base(T, st, fp) && 0 <= v < |st|
  {
    EndsAt(T, Long(T, st, fp, v), |T|)
  }

  /** Two suffix states whose lengths overlap the class of one of them are the same. */
  lemma SuffixStatesMeet(T: seq<char>, st: seq<State>, fp: seq<int>, x: int, v: int)
    requires Base(T, st, fp) && ClassEnds(T, st, fp) && Distinct(T, st, fp)
    requires 0 <= x < |st| && 0 <= v < |st| && SufState(T, st, fp, x) && SufState(T, st, fp, v)
    requires MinLen(st, x) <= st[v].len <= st[x].len
    ensures v == x
  {
    SuffixEndsAt(T, Long(T, st, fp, v), Long(T, st, fp, x), |T|, fp[x]);
    LongInClass(T, st, fp, v);
    ClassUnique(T, st, fp, Long(T, st, fp, v), x, v);
  }

  lemma LinkSufState(T: seq<char>, st: seq<State>, fp: seq<int>, x: int)
    requires Base(T, st, fp) && LinkSuffixes(T, st, fp) && 1 <= x < |st| && SufState(T, st, fp, x)
    ensures SufState(T, st, fp, st[x].link)
  {
    SuffixEndsAt(T, Long(T, st, fp, st[x].link), Long(T, st, fp, x), fp[x], |T|);
  }

  /** A shorter suffix state occurs followed by `a` whenever a longer one does. */
  lemma SufStateExtends(T: seq<char>, st: seq<State>, fp: seq<int>, v: int, x: int, a: char)
    requires Base(T, st, fp) && 0 <= v < |st| && 0 <= x < |st|
    requires SufState(T, st, fp, v) && SufState(T, st, fp, x) && st[v].len <= st[x].len
    requires Extends(T, Long(T, st, fp, x), a)
    ensures Extends(T, Long(T, st, fp, v), a)
  {
    ExtendsSuffix(T, Long(T, st, fp, v), Long(T, st, fp, x), |T|, a);
  }
}
