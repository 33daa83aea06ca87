/** What one `extend(c)` step of Algorithms/SuffixAutomation.java does to the automaton
    of a text `T`, described state by state: which states gain a transition to the new
    state, where the first walk stops, and which transitions move to the clone. */
module SuffixAutomatonGrow {
  import opened SuffixAutomatonTheory
  import opened SuffixAutomatonExtend

  // ---------------------------------------------------------------- strings

  /** Of two strings ending at `e`, the shorter one followed by `a` ends wherever the
      longer one followed by `a` does. */
  lemma AppendSuffixEnds(T: seq<char>, x: seq<char>, y: seq<char>, e: int, a: char, f: int)
    requires EndsAt(T, x, e) && EndsAt(T, y, e) && |x| <= |y| && EndsAt(T, y + [a], f)
    ensures EndsAt(T, x + [a], f)
  {
    assert x == y[|y| - |x|..];
    assert (y + [a])[|y| - |x|..] == x + [a];
    assert T[f - |x| - 1..f] == T[f - |y| - 1..f][|y| - |x|..];
  }

  lemma DropLast(T: seq<char>, x: seq<char>, a: char, f: int)
    requires EndsAt(T, x + [a], f)
    ensures EndsAt(T, x, f - 1) && f - 1 < |T| && T[f - 1] == a
  {
    assert T[f - 1 - |x|..f - 1] == T[f - |x| - 1..f][..|x|];
  }

  // ---------------------------------------------------------------- suffix states

  /** The states standing for suffixes of the whole text: the states on the link path
      from `last`. */
  ghost function SufStates(T: seq<char>, st: seq<State>, fp: seq<int>): set<int>
    requires Base(T, st, fp)
  {
    set v | 0 <= v < |st| && SufState(T, st, fp, v)
  }

  /** The suffix states form a chain the walks can follow. */
  lemma SufChainOf(T: seq<char>, st: seq<State>, fp: seq<int>)
    requires Base(T, st, fp) && LinkSuffixes(T, st, fp) && ClassEnds(T, st, fp) && Distinct(T, st, fp)
    ensures SufChain(st, |st|, SufStates(T, st, fp))
  {
    var S := SufStates(T, st, fp);
    forall y | y in S
      ensures Link(st, y) == -1 || Link(st, y) in S
    {
      LinkOfSufState(T, st, fp, y);
    }
    forall y, v | y in S && v in S && Bound(st, Link(st, y)) < st[v].len <= st[y].len
      ensures v == y
    {
      SuffixStatesMeet(T, st, fp, y, v);
    }
  }

  lemma LinkOfSufState(T: seq<char>, st: seq<State>, fp: seq<int>, y: int)
    requires Base(T, st, fp) && LinkSuffixes(T, st, fp) && 0 <= y < |st| && SufState(T, st, fp, y)
    ensures Link(st, y) == -1 || (0 <= Link(st, y) < |st| && SufState(T, st, fp, Link(st, y)))
  {
    if y >= 1 {
      LinkSufState(T, st, fp, y);
    }
  }

  /** A shorter suffix state has a transition on `c` whenever a longer one does. */
  lemma HasDownOf(T: seq<char>, st: seq<State>, fp: seq<int>, c: char, sta: seq<State>, X: int)
    requires Base(T, st, fp) && Keys(T, st, fp)
    requires |st| <= |sta| && forall v :: 0 <= v < |st| ==> sta[v] == st[v]
    ensures HasDown(sta, SufStates(T, st, fp), c, X)
  {
    var S := SufStates(T, st, fp);
    forall y, v | 0 <= v < |sta| && 0 <= y < |sta| && y in S && v in S &&
                  sta[v].len <= sta[y].len <= X && Has(sta, c, y)
      ensures Has(sta, c, v)
    {
      assert sta[y] == st[y] && sta[v] == st[v];
      SufStateExtends(T, st, fp, v, y, c);
    }
  }

  /** Every suffix of `T` lies in the class of a suffix state. */
  lemma SuffixClass(T: seq<char>, st: seq<State>, fp: seq<int>, last: int, w: seq<char>)
    returns (v: int)
    requires Automaton(T, st, fp, last) && EndsAt(T, w, |T|)
    ensures 0 <= v < |st| && InClass(T, st, fp, w, v) && SufState(T, st, fp, v)
  {
    v := ClassOfSuffix(T, st, fp, last, w);
  }

  // ---------------------------------------------------------------- where the first walk stops

  /** `p` is the longest suffix state with a transition on `c`, or -1 when no suffix
      state has one. */
  ghost predicate Top(T: seq<char>, st: seq<State>, fp: seq<int>, c: char, p: int)
    requires Base(T, st, fp)
  {
    if p == -1 then
      forall v :: 0 <= v < |st| && SufState(T, st, fp, v) ==> !Has(st, c, v)
    else
      0 <= p < |st| && SufState(T, st, fp, p) && Has(st, c, p) &&
      forall v :: 0 <= v < |st| && SufState(T, st, fp, v) && Has(st, c, v) ==> st[v].len <= st[p].len
  }

  /** A suffix of `T` that occurs followed by `c` is no longer than `p`, and there is
      none when `p` is -1. */
  lemma TopLongest(T: seq<char>, st: seq<State>, fp: seq<int>, last: int, c: char, p: int, w: seq<char>)
    requires Automaton(T, st, fp, last) && Top(T, st, fp, c, p)
    requires EndsAt(T, w, |T|) && Extends(T, w, c)
    ensures p != -1 && |w| <= st[p].len
  {
    var v := SuffixClass(T, st, fp, last, w);
    var e :| EndsAt(T, w, e) && e < |T| && T[e] == c;
    ClassSameEnds(T, st, fp, w, v, e);
    assert Has(st, c, v);
  }

  /** Every suffix state no longer than `p` has a transition on `c`. */
  lemma HasBelowTop(T: seq<char>, st: seq<State>, fp: seq<int>, c: char, p: int, v: int)
    requires Base(T, st, fp) && Keys(T, st, fp) && p != -1 && Top(T, st, fp, c, p)
    requires 0 <= v < |st| && SufState(T, st, fp, v) && st[v].len <= st[p].len
    ensures Has(st, c, v)
  {
    SufStateExtends(T, st, fp, v, p, c);
  }

  /** The suffix states no longer than `p` whose transition on `c` leads to `q` form a run:
      a longer one up to `p` has such a transition as well. */
  lemma RunPair(T: seq<char>, st: seq<State>, fp: seq<int>, c: char, p: int, y: int, v: int)
    requires Base(T, st, fp) && ClassEnds(T, st, fp) && Distinct(T, st, fp)
    requires Keys(T, st, fp) && Targets(T, st, fp) && p != -1 && Top(T, st, fp, c, p)
    requires 0 <= y < |st| && 0 <= v < |st| && SufState(T, st, fp, y) && SufState(T, st, fp, v)
    requires st[v].len <= st[y].len <= st[p].len && Into(st, c, Target(st, c, p), v)
    ensures Into(st, c, Target(st, c, p), y)
  {
    var q := Target(st, c, p);
    HasBelowTop(T, st, fp, c, p, y);
    var t := st[y].next[c];
    var ly, lp := Long(T, st, fp, y), Long(T, st, fp, p);
    assert InClass(T, st, fp, ly + [c], t);
    assert InClass(T, st, fp, Long(T, st, fp, v) + [c], q);
    assert InClass(T, st, fp, lp + [c], q);
    AppendSuffixEnds(T, ly, lp, |T|, c, fp[q]);
    assert InClass(T, st, fp, ly + [c], q);
    ClassUnique(T, st, fp, ly + [c], t, q);
  }

  lemma RunOf(T: seq<char>, st: seq<State>, fp: seq<int>, c: char, p: int)
    requires Base(T, st, fp) && ClassEnds(T, st, fp) && Distinct(T, st, fp)
    requires Keys(T, st, fp) && Targets(T, st, fp) && p != -1 && Top(T, st, fp, c, p)
    ensures RunInto(st, SufStates(T, st, fp), c, Target(st, c, p), st[p].len)
  {
    var S := SufStates(T, st, fp);
    var q := Target(st, c, p);
    forall y, v | 0 <= v < |st| && 0 <= y < |st| && y in S && v in S &&
                  st[v].len <= st[y].len <= st[p].len && Into(st, c, q, v)
      ensures Into(st, c, q, y)
    {
      RunPair(T, st, fp, c, p, y, v);
    }
  }

  /** `st2` is `st` after the first walk with the new state appended: every state of `S`
      without a transition on `c` has one to the new state `|st|`. */
  ghost predicate AfterFirst(st: seq<State>, st2: seq<State>, S: set<int>, c: char)
  {
    |st2| == |st| + 1 &&
    forall v {:trigger st2[v]} :: 0 <= v < |st| ==>
      st2[v] == (if v in S && !Has(st, c, v) then st[v].(next := st[v].next[c := |st|]) else st[v])
  }

  /** `st4` is `st2` after the second walk from `p` with the clone `|st| + 1` appended:
      the transitions on `c` into `q` of the states of `S` no longer than `p` lead to it. */
  ghost predicate AfterSecond(st: seq<State>, st2: seq<State>, st4: seq<State>, S: set<int>, c: char, p: int, q: int)
    requires 0 <= p < |st|
  {
    |st2| == |st| + 1 && |st4| == |st| + 2 && st4[|st|] == st2[|st|] &&
    forall v {:trigger st4[v]} :: 0 <= v < |st| ==>
      st4[v] == (if v in S && st[v].len <= st[p].len && Into(st, c, q, v)
                 then st[v].(next := st[v].next[c := |st| + 1]) else st2[v])
  }

  /** Every state of `S` no longer than `X` has a transition on `c`. */
  ghost predicate HasUpTo(st: seq<State>, S: set<int>, c: char, X: int)
  {
    forall v :: 0 <= v < |st| && v in S && st[v].len <= X ==> Has(st, c, v)
  }

  /** The first walk of `extend(c)` (lines 35-41) gives every suffix state without a
      transition on `c` one to the new state, and stops at the `p` of `Top`. */
  lemma FirstWalk(T: seq<char>, st: seq<State>, fp: seq<int>, last: int, c: char) returns (p: int)
    requires Automaton(T, st, fp, last)
    ensures var w := Walked(st, last, c);
      p == w.1 && Top(T, st, fp, c, p) && w.0[|st|] == State(st[last].len + 1, -1, map[]) &&
      AfterFirst(st, w.0, SufStates(T, st, fp), c)
  {
    var S := SufStates(T, st, fp);
    SufChainOf(T, st, fp);
    HasDownOf(T, st, fp, c, Appended(st, last), Bound(Appended(st, last), last));
    SufStatesBelow(T, st, fp, last);
    p := WalkCore(st, S, c, last);
    TopOfWalk(T, st, fp, c, p);
  }

  /** The suffix states lie below the new state and are no longer than `last`. */
  lemma SufStatesBelow(T: seq<char>, st: seq<State>, fp: seq<int>, last: int)
    requires Automaton(T, st, fp, last)
    ensures last in SufStates(T, st, fp)
    ensures forall v :: v in SufStates(T, st, fp) ==> 0 <= v < |st| && st[v].len <= st[last].len
  {
  }

  /** The first walk on the arena with the new state appended, in terms of a chain `S` of
      states along which the transitions on `c` only thin out. */
  lemma WalkCore(st: seq<State>, S: set<int>, c: char, last: int) returns (p: int)
    requires Linked(st, |st|) && InRange(st) && 0 <= last < |st| && SufChain(st, |st|, S)
    requires HasDown(Appended(st, last), S, c, Bound(Appended(st, last), last))
    requires last in S && forall v :: v in S ==> 0 <= v < |st| && st[v].len <= st[last].len
    ensures var w := Walked(st, last, c);
      p == w.1 && w.0[|st|] == State(st[last].len + 1, -1, map[]) && AfterFirst(st, w.0, S, c) &&
      (p == -1 ==> forall v :: v in S ==> !Has(st, c, v)) &&
      (p != -1 ==> p in S && Has(st, c, p) && forall v :: v in S && Has(st, c, v) ==> st[v].len <= st[p].len)
  {
    var N := |st|;
    var st1 := Appended(st, last);
    FrameAppend(st, State(st[last].len + 1, -1, map[]));
    SufChainGrow(st, st1, N, N + 1, S);
    AddWalkStates(st1, S, c, N, last);
    AddWalkTop(st1, S, c, N, last);
    var w := AddWalk(st1, last, c, N);
    assert w == Walked(st, last, c);
    p := w.1;
    forall v | 0 <= v < N
      ensures w.0[v] == (if v in S && !Has(st, c, v) then st[v].(next := st[v].next[c := N]) else st[v])
    {
      assert st1[v] == st[v];
    }
    if p != -1 {
      assert st1[p] == st[p];
      forall v | v in S && Has(st, c, v)
        ensures st[v].len <= st[p].len
      {
        assert st1[v] == st[v];
      }
    } else {
      forall v | v in S
        ensures !Has(st, c, v)
      {
        assert st1[v] == st[v];
      }
    }
  }

  lemma FrameAppend(st: seq<State>, s: State)
    ensures forall v :: 0 <= v < |st| ==> (st + [s])[v] == st[v]
  {
  }

  /** Where the first walk stops, read back in terms of suffix states. */
  lemma TopOfWalk(T: seq<char>, st: seq<State>, fp: seq<int>, c: char, p: int)
    requires Base(T, st, fp) && -1 <= p
    requires var S := SufStates(T, st, fp);
      (p == -1 ==> forall v :: v in S ==> !Has(st, c, v)) &&
      (p != -1 ==> p in S && Has(st, c, p) && forall v :: v in S && Has(st, c, v) ==> st[v].len <= st[p].len)
    ensures Top(T, st, fp, c, p)
  {
    var S := SufStates(T, st, fp);
    if p == -1 {
      forall v | 0 <= v < |st| && SufState(T, st, fp, v)
        ensures !Has(st, c, v)
      {
        assert v in S;
      }
    } else {
      forall v | 0 <= v < |st| && SufState(T, st, fp, v) && Has(st, c, v)
        ensures st[v].len <= st[p].len
      {
        assert v in S;
      }
    }
  }

  /** Appending the clone keeps the chain of suffix states. */
  lemma CloneChain(st: seq<State>, st2: seq<State>, S: set<int>, c: char, s3: State)
    requires Linked(st, |st|) && SufChain(st, |st|, S)
    requires Linked(st2, |st2|) && InRange(st2) && |st2| == |st| + 1
    requires forall a :: a in s3.next ==> 0 <= s3.next[a] < |st2|
    requires AfterFirst(st, st2, S, c)
    ensures Linked(st2 + [s3], |st2|) && InRange(st2 + [s3]) && SufChain(st2 + [s3], |st2|, S)
  {
    var st3 := st2 + [s3];
    AppendCloneKeeps(st2, s3);
    forall v | 0 <= v < |st|
      ensures st3[v].len == st[v].len && st3[v].link == st[v].link
    {
      assert st3[v] == st2[v];
    }
    SufChainGrow(st, st3, |st|, |st2|, S);
  }

  /** With the clone appended, the transitions into `q` below `p` still form a run. */
  lemma CloneRun(st: seq<State>, st2: seq<State>, S: set<int>, c: char, p: int, q: int, s3: State)
    requires 0 <= p < |st| && |st2| == |st| + 1 && (forall v :: v in S ==> 0 <= v < |st|)
    requires AfterFirst(st, st2, S, c)
    requires HasUpTo(st, S, c, st[p].len)
    requires RunInto(st, S, c, q, st[p].len)
    ensures RunInto(st2 + [s3], S, c, q, Bound(st2 + [s3], p))
  {
    var st3 := st2 + [s3];
    forall y, v | 0 <= v < |st3| && 0 <= y < |st3| && y in S && v in S &&
                  st3[v].len <= st3[y].len <= Bound(st3, p) && Into(st3, c, q, v)
      ensures Into(st3, c, q, y)
    {
      assert st3[v] == st2[v] && st3[y] == st2[y] && st3[p] == st2[p];
      assert Has(st, c, v) && Has(st, c, y);
      assert Into(st, c, q, v) && Into(st3, c, q, y) == Into(st, c, q, y);
    }
  }

  /** The second walk of `extend(c)` (lines 54-57) on the arena with the clone appended:
      exactly the transitions on `c` into `q` of the suffix states no longer than `p`
      move to the clone. */
  lemma RedirectCore(st: seq<State>, st2: seq<State>, S: set<int>, c: char, p: int, q: int, s3: State)
    requires |st2| == |st| + 1 && p in S && 0 <= p < |st| && (forall v :: v in S ==> 0 <= v < |st|)
    requires Linked(st2 + [s3], |st2|) && SufChain(st2 + [s3], |st2|, S)
    requires RunInto(st2 + [s3], S, c, q, Bound(st2 + [s3], p))
    requires AfterFirst(st, st2, S, c)
    requires HasUpTo(st, S, c, st[p].len)
    ensures var N := |st|;
      var st4 := Redirect(st2 + [s3], p, c, q, N + 1);
      |st4| == N + 2 && st4[N] == st2[N] && st4[N + 1] == s3 &&
      forall v :: 0 <= v < N ==>
        st4[v] == (if v in S && st[v].len <= st[p].len && Into(st, c, q, v)
                   then st[v].(next := st[v].next[c := N + 1]) else st2[v])
  {
    var N := |st|;
    var st3 := st2 + [s3];
    assert st3[p] == st2[p];
    RedirectMarks(st3, S, c, q, N + 1, p);
    var st4 := Redirect(st3, p, c, q, N + 1);
    forall v | 0 <= v < N
      ensures st4[v] == (if v in S && st[v].len <= st[p].len && Into(st, c, q, v)
                         then st[v].(next := st[v].next[c := N + 1]) else st2[v])
    {
      assert st3[v] == st2[v];
      RedirectedState(st, S, c, p, q, v, st2[v], st4[v]);
    }
  }

  /** One old state through the second walk, `a` before it and `b` after it. */
  lemma RedirectedState(st: seq<State>, S: set<int>, c: char, p: int, q: int, v: int, a: State, b: State)
    requires 0 <= p < |st| && 0 <= v < |st| && HasUpTo(st, S, c, st[p].len)
    requires a == (if v in S && !Has(st, c, v) then st[v].(next := st[v].next[c := |st|]) else st[v])
    requires b == (if v in S && a.len <= st[p].len && c in a.next && a.next[c] == q
                   then a.(next := a.next[c := |st| + 1]) else a)
    ensures b == (if v in S && st[v].len <= st[p].len && Into(st, c, q, v)
                  then st[v].(next := st[v].next[c := |st| + 1]) else a)
  {
    if v in S && st[v].len <= st[p].len {
      assert Has(st, c, v);
    }
  }

  // ---------------------------------------------------------------- the grown arena

  /** The state the first walk stops at, with its transition on `c`. */
  predicate Stop(st: seq<State>, c: char, p: int)
  {
    p == -1 || (0 <= p < |st| && c in st[p].next)
  }

  /** `q`, the target of the transition on `c` of the state the walk stops at. */
  function Target(st: seq<State>, c: char, p: int): int
    requires 0 <= p < |st| && c in st[p].next
  {
    st[p].next[c]
  }

  /** No clone is needed: the walk ran off the initial state, or `q` is exactly one
      longer than `p`. */
  predicate Solid(st: seq<State>, c: char, p: int)
    requires Shape(st) && Stop(st, c, p)
  {
    p == -1 || st[p].len + 1 == st[Target(st, c, p)].len
  }

  /** The transitions of old state `v` after the step: a suffix state without a
      transition on `c` gets one to the new state `|st|`, and a suffix state no longer
      than `p` whose transition on `c` leads to `q` is sent to the clone `|st| + 1`. */
  ghost function NewNext(T: seq<char>, st: seq<State>, fp: seq<int>, c: char, p: int, v: int): map<char, int>
    requires Base(T, st, fp) && Stop(st, c, p) && 0 <= v < |st|
  {
    if v in SufStates(T, st, fp) && !Has(st, c, v) then st[v].next[c := |st|]
    else if !Solid(st, c, p) && v in SufStates(T, st, fp) && st[v].len <= st[p].len &&
            Into(st, c, Target(st, c, p), v)
    then st[v].next[c := |st| + 1]
    else st[v].next
  }

  /** `st'` is the arena after `extend(c)` on the automaton `st` of `T` whose first walk
      stops at `p`: the old states keep their lengths, `q` is linked to the clone when
      there is one, the new state `|st|` stands for the whole new text, and the clone
      copies `q` at the length of `p` plus one. */
  ghost predicate Grown(T: seq<char>, st: seq<State>, fp: seq<int>, c: char, p: int, st': seq<State>)
    requires Base(T, st, fp) && Stop(st, c, p)
  {
    var N := |st|;
    |st'| == (if Solid(st, c, p) then N + 1 else N + 2) &&
    (forall v {:trigger st'[v]} :: 0 <= v < N ==>
       st'[v] == State(st[v].len,
                       if !Solid(st, c, p) && v == Target(st, c, p) then N + 1 else st[v].link,
                       NewNext(T, st, fp, c, p, v))) &&
    st'[N] == State(|T| + 1,
                    if p == -1 then 0 else if Solid(st, c, p) then Target(st, c, p) else N + 1,
                    map[]) &&
    (!Solid(st, c, p) ==>
       st'[N + 1] == State(st[p].len + 1, st[Target(st, c, p)].link, NewNext(T, st, fp, c, p, Target(st, c, p))))
  }

  /** Every suffix state no longer than `p`, and every state on its suffix-link chain,
      has a transition on `c` in the arena the first walk left. */
  lemma {:induction false} ChainBelowTop(T: seq<char>, st: seq<State>, fp: seq<int>, c: char, p: int,
                                         st2: seq<State>, x: int)
    requires Base(T, st, fp) && Keys(T, st, fp) && p != -1 && Top(T, st, fp, c, p)
    requires SufChain(st, |st|, SufStates(T, st, fp))
    requires Linked(st2, |st2|) && AfterFirst(st, st2, SufStates(T, st, fp), c)
    requires x == -1 || (x in SufStates(T, st, fp) && st[x].len <= st[p].len)
    ensures -1 <= x < |st2| && ChainHas(st2, |st2|, x, c)
    decreases Bound(st, x) + 1
  {
    if x != -1 {
      HasBelowTop(T, st, fp, c, p, x);
      assert st2[x] == st[x];
      assert Link(st, x) == -1 || Link(st, x) in SufStates(T, st, fp);
      ChainBelowTop(T, st, fp, c, p, st2, st[x].link);
    }
  }

  /** The first walk of `extend(c)` stops at a state whose whole suffix-link chain has a
      transition on `c`: the second walk (lines 54-57) never meets a state without one. */
  lemma SecondWalkHas(T: seq<char>, st: seq<State>, fp: seq<int>, last: int, c: char)
    requires Automaton(T, st, fp, last)
    ensures var w := Walked(st, last, c); w.1 != -1 ==> ChainHas(w.0, |w.0|, w.1, c)
  {
    var p := FirstWalk(T, st, fp, last, c);
    if p != -1 {
      SufChainOf(T, st, fp);
      ChainBelowTop(T, st, fp, c, p, Walked(st, last, c).0, p);
    }
  }

  /** The clone branch of `extend(c)` (lines 49-57) on the arena the first walk left. */
  lemma CloneStep(st: seq<State>, st2: seq<State>, S: set<int>, c: char, p: int)
    requires Linked(st, |st|) && SufChain(st, |st|, S) && (forall v :: v in S ==> 0 <= v < |st|)
    requires p in S && Has(st, c, p) && HasUpTo(st, S, c, st[p].len) && RunInto(st, S, c, st[p].next[c], st[p].len)
    requires Linked(st2, |st2|) && InRange(st2) && AfterFirst(st, st2, S, c)
    ensures c in st2[p].next && st2[p].next[c] == st[p].next[c]
    ensures AfterSecond(st, st2, Redirected(st2, p, c), S, c, p, st[p].next[c])
    ensures Redirected(st2, p, c)[|st| + 1] == CloneOf(st2, p, c)
  {
    assert st2[p] == st[p];
    var q := st[p].next[c];
    var s3 := CloneOf(st2, p, c);
    CloneChain(st, st2, S, c, s3);
    CloneRun(st, st2, S, c, p, q, s3);
    RedirectCore(st, st2, S, c, p, q, s3);
  }

  /** `extend(c)` (lines 34-62) leaves the arena `Grown` describes, with the walk stopping
      at the `p` of `Top`, and returns the new state as the new `last`. */
  lemma ExtendedIsGrown(T: seq<char>, st: seq<State>, fp: seq<int>, last: int, c: char) returns (p: int)
    requires Automaton(T, st, fp, last)
    ensures Stop(st, c, p) && Top(T, st, fp, c, p)
    ensures Grown(T, st, fp, c, p, Extended(st, last, c).0) && Extended(st, last, c).1 == |st|
  {
    p := FirstWalk(T, st, fp, last, c);
    var S := SufStates(T, st, fp);
    var st2 := Walked(st, last, c).0;
    if p != -1 && !Solid(st, c, p) {
      var q := Target(st, c, p);
      SufChainOf(T, st, fp);
      SufStatesBelow(T, st, fp, last);
      forall v | 0 <= v < |st| && v in S && st[v].len <= st[p].len
        ensures Has(st, c, v)
      {
        HasBelowTop(T, st, fp, c, p, v);
      }
      RunOf(T, st, fp, c, p);
      assert InClass(T, st, fp, Long(T, st, fp, p) + [c], q);
      CloneStep(st, st2, S, c, p);
      assert CloneFacts(T, st, fp, last, c, p);
      GrownClone(T, st, fp, last, c, p);
    } else {
      if p != -1 {
        assert st2[p] == st[p];
      }
      GrownSolid(T, st, fp, last, c, p);
    }
  }

  /** Without a clone, only the new state's link is set after the first walk. */
  lemma GrownSolid(T: seq<char>, st: seq<State>, fp: seq<int>, last: int, c: char, p: int)
    requires Base(T, st, fp) && 0 <= last < |st| && st[last].len == |T|
    requires Stop(st, c, p) && Solid(st, c, p)
    requires var w := Walked(st, last, c);
      w.1 == p && w.0[|st|] == State(st[last].len + 1, -1, map[]) &&
      AfterFirst(st, w.0, SufStates(T, st, fp), c) && (p == -1 || w.0[p] == st[p])
    ensures Grown(T, st, fp, c, p, Extended(st, last, c).0) && Extended(st, last, c).1 == |st|
  {
    var N := |st|;
    var st2 := Walked(st, last, c).0;
    var r := Extended(st, last, c).0;
    if p != -1 {
      assert st2[Target(st, c, p)].len == st[Target(st, c, p)].len;
    }
    forall v | 0 <= v < N
      ensures r[v] == State(st[v].len, st[v].link, NewNext(T, st, fp, c, p, v))
    {
      assert r[v] == st2[v];
    }
  }

  /** What the two walks leave when `extend(c)` needs a clone. */
  ghost predicate CloneFacts(T: seq<char>, st: seq<State>, fp: seq<int>, last: int, c: char, p: int)
    requires Base(T, st, fp) && 0 <= last < |st|
  {
    st[last].len == |T| && Stop(st, c, p) && !Solid(st, c, p) && st[Target(st, c, p)].len > st[p].len &&
    var w := Walked(st, last, c);
    w.1 == p && w.0[|st|] == State(st[last].len + 1, -1, map[]) &&
    AfterFirst(st, w.0, SufStates(T, st, fp), c) &&
    c in w.0[p].next && w.0[p].next[c] == Target(st, c, p) &&
    AfterSecond(st, w.0, Redirected(w.0, p, c), SufStates(T, st, fp), c, p, Target(st, c, p)) &&
    Redirected(w.0, p, c)[|st| + 1] == CloneOf(w.0, p, c)
  }

  /** With a clone, `q` and the new state are linked to it after the second walk. */
  lemma GrownClone(T: seq<char>, st: seq<State>, fp: seq<int>, last: int, c: char, p: int)
    requires Base(T, st, fp) && 0 <= last < |st| && CloneFacts(T, st, fp, last, c, p)
    ensures Grown(T, st, fp, c, p, Extended(st, last, c).0) && Extended(st, last, c).1 == |st|
  {
    CloneOldStates(T, st, fp, last, c, p);
    CloneNewStates(T, st, fp, last, c, p);
  }

  lemma CloneOldStates(T: seq<char>, st: seq<State>, fp: seq<int>, last: int, c: char, p: int)
    requires Base(T, st, fp) && 0 <= last < |st| && CloneFacts(T, st, fp, last, c, p)
    ensures var r := Extended(st, last, c).0;
      |r| == |st| + 2 &&
      forall v :: 0 <= v < |st| ==>
        r[v] == State(st[v].len, if v == Target(st, c, p) then |st| + 1 else st[v].link, NewNext(T, st, fp, c, p, v))
  {
    var N := |st|;
    var q := Target(st, c, p);
    var st2 := Walked(st, last, c).0;
    var st4 := Redirected(st2, p, c);
    var r := Extended(st, last, c).0;
    assert r == st4[q := st4[q].(link := N + 1)][N := st4[N].(link := N + 1)];
    forall v | 0 <= v < N
      ensures r[v] == State(st[v].len, if v == q then N + 1 else st[v].link, NewNext(T, st, fp, c, p, v))
    {
      OldStateAfterClone(T, st, fp, c, p, v, st2[v], st4[v]);
      assert r[v] == if v == q then st4[v].(link := N + 1) else st4[v];
    }
  }

  /** One old state through both walks: `a` after the first, `b` after the second. */
  lemma OldStateAfterClone(T: seq<char>, st: seq<State>, fp: seq<int>, c: char, p: int, v: int, a: State, b: State)
    requires Base(T, st, fp) && Stop(st, c, p) && !Solid(st, c, p) && st[Target(st, c, p)].len > st[p].len
    requires 0 <= v < |st|
    requires var S := SufStates(T, st, fp);
      a == (if v in S && !Has(st, c, v) then st[v].(next := st[v].next[c := |st|]) else st[v]) &&
      b == (if v in S && st[v].len <= st[p].len && Into(st, c, Target(st, c, p), v)
            then st[v].(next := st[v].next[c := |st| + 1]) else a)
    ensures (if v == Target(st, c, p) then b.(link := |st| + 1) else b) ==
      State(st[v].len, if v == Target(st, c, p) then |st| + 1 else st[v].link, NewNext(T, st, fp, c, p, v))
  {
  }

  lemma CloneNewStates(T: seq<char>, st: seq<State>, fp: seq<int>, last: int, c: char, p: int)
    requires Base(T, st, fp) && 0 <= last < |st| && CloneFacts(T, st, fp, last, c, p)
    ensures var r := Extended(st, last, c);
      r.1 == |st| && |r.0| == |st| + 2 &&
      r.0[|st|] == State(|T| + 1, |st| + 1, map[]) &&
      r.0[|st| + 1] == State(st[p].len + 1, st[Target(st, c, p)].link, NewNext(T, st, fp, c, p, Target(st, c, p)))
  {
    var N := |st|;
    var q := Target(st, c, p);
    var st2 := Walked(st, last, c).0;
    var st4 := Redirected(st2, p, c);
    var r := Extended(st, last, c).0;
    assert r == st4[q := st4[q].(link := N + 1)][N := st4[N].(link := N + 1)];
    assert r[N + 1] == st4[N + 1] == CloneOf(st2, p, c);
    assert st2[p] == st[p];
    CloneState(T, st, fp, c, p, st2[q]);
  }

  /** The clone copies `q` as the first walk left it. */
  lemma CloneState(T: seq<char>, st: seq<State>, fp: seq<int>, c: char, p: int, a: State)
    requires Base(T, st, fp) && Stop(st, c, p) && !Solid(st, c, p) && st[Target(st, c, p)].len > st[p].len
    requires var q := Target(st, c, p);
      a == (if q in SufStates(T, st, fp) && !Has(st, c, q) then st[q].(next := st[q].next[c := |st|]) else st[q])
    ensures State(st[p].len + 1, a.link, a.next) ==
      State(st[p].len + 1, st[Target(st, c, p)].link, NewNext(T, st, fp, c, p, Target(st, c, p)))
  {
  }
}
