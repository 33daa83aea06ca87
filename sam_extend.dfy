/** One step of the online construction, `extend(c)` of Algorithms/SuffixAutomation.java,
    as a function of the arena, and the proof that it turns the automaton of `T` into the
    automaton of `T + [c]`. */
module SuffixAutomatonExtend {
  import opened SuffixAutomatonTheory

  // ---------------------------------------------------------------- the step

  /** Gives `p` a transition on `c` to `t`. */
  function AddTransition(st: seq<State>, p: int, c: char, t: int): (r: seq<State>)
    requires 0 <= p < |st|
    ensures |r| == |st| && r[p].len == st[p].len && r[p].link == st[p].link
    ensures forall v :: 0 <= v < |st| && v != p ==> r[v] == st[v]
  {
    st[p := st[p].(next := st[p].next[c := t])]
  }

  lemma AddTransitionLinked(st: seq<State>, n: int, p: int, c: char, t: int)
    requires Linked(st, n) && 0 <= p < |st|
    ensures Linked(AddTransition(st, p, c, t), n)
  {
    var r := AddTransition(st, p, c, t);
    forall v | 0 <= v < n
      ensures r[v].len == st[v].len && r[v].link == st[v].link
      ensures st[v].link != -1 ==> r[st[v].link].len == st[st[v].link].len
    {
    }
  }

  lemma AddTransitionInRange(st: seq<State>, p: int, c: char, t: int)
    requires InRange(st) && 0 <= p < |st| && 0 <= t < |st|
    ensures InRange(AddTransition(st, p, c, t))
  {
    var r := AddTransition(st, p, c, t);
    forall v, a | 0 <= v < |r| && a in r[v].next
      ensures 0 <= r[v].next[a] < |r|
    {
      if v == p && a != c {
        assert r[v].next[a] == st[v].next[a];
      }
    }
  }

  function Bound(st: seq<State>, x: int): int
    requires -1 <= x < |st|
  {
    if x == -1 then -1 else st[x].len
  }

  /** The first walk (lines 37-41): along the links from `p`, every state without a
      transition on `c` gets one to `cur`; the walk stops at the first state that has
      one, or after the initial state. */
  function AddWalk(st: seq<State>, p: int, c: char, cur: int): (r: (seq<State>, int))
    requires Linked(st, |st|) && -1 <= p < |st|
    ensures |r.0| == |st| && -1 <= r.1 < |st|
    decreases Bound(st, p) + 1
  {
    if p == -1 || c in st[p].next then (st, p)
    else
      AddTransitionLinked(st, |st|, p, c, cur);
      AddWalk(AddTransition(st, p, c, cur), st[p].link, c, cur)
  }

  lemma {:induction false} AddWalkKeeps(st: seq<State>, p: int, c: char, cur: int)
    requires Linked(st, |st|) && InRange(st) && -1 <= p < |st| && 0 <= cur < |st|
    ensures var r := AddWalk(st, p, c, cur);
      Linked(r.0, |r.0|) && InRange(r.0) && (r.1 == -1 || c in r.0[r.1].next)
    decreases Bound(st, p) + 1
  {
    if p != -1 && c !in st[p].next {
      AddTransitionLinked(st, |st|, p, c, cur);
      AddTransitionInRange(st, p, c, cur);
      AddWalkKeeps(AddTransition(st, p, c, cur), st[p].link, c, cur);
    }
  }

  /** The second walk (lines 54-57): along the links from `p`, every transition on `c`
      into `q` is redirected to `clone`, until one leads elsewhere.  The clone itself,
      the last state, is never on the walk.  `Into` also asks for the key; on the walks
      `extend` makes every state has it (`ChainHas`), so the test is Java's there. */
  function Redirect(st: seq<State>, p: int, c: char, q: int, clone: int): (r: seq<State>)
    requires Linked(st, |st| - 1) && -1 <= p < |st| - 1
    ensures |r| == |st|
    decreases Bound(st, p) + 1
  {
    if p == -1 || !Into(st, c, q, p) then st
    else
      AddTransitionLinked(st, |st| - 1, p, c, clone);
      Redirect(AddTransition(st, p, c, clone), st[p].link, c, q, clone)
  }

  lemma {:induction false} RedirectKeeps(st: seq<State>, p: int, c: char, q: int, clone: int)
    requires Linked(st, |st| - 1) && InRange(st) && -1 <= p < |st| - 1 && 0 <= clone < |st|
    ensures Linked(Redirect(st, p, c, q, clone), |st| - 1) && InRange(Redirect(st, p, c, q, clone))
    decreases Bound(st, p) + 1
  {
    if p != -1 && Into(st, c, q, p) {
      AddTransitionLinked(st, |st| - 1, p, c, clone);
      AddTransitionInRange(st, p, c, clone);
      RedirectKeeps(AddTransition(st, p, c, clone), st[p].link, c, q, clone);
    }
  }

  /** Every state on the suffix-link chain from `p` has a transition on `c`, so the
      second walk's test `next.get(c) == q` never meets a missing key. */
  ghost predicate ChainHas(st: seq<State>, n: int, p: int, c: char)
    requires Linked(st, n) && -1 <= p < n
    decreases Bound(st, p) + 1
  {
    p == -1 || (c in st[p].next && ChainHas(st, n, st[p].link, c))
  }

  lemma {:induction false} ChainHasAdd(st: seq<State>, n: int, x: int, p: int, c: char, t: int)
    requires Linked(st, n) && -1 <= x < n && 0 <= p < |st| && ChainHas(st, n, x, c)
    ensures Linked(AddTransition(st, p, c, t), n) && ChainHas(AddTransition(st, p, c, t), n, x, c)
    decreases Bound(st, x) + 1
  {
    AddTransitionLinked(st, n, p, c, t);
    if x != -1 {
      ChainHasAdd(st, n, st[x].link, p, c, t);
    }
  }

  lemma {:induction false} ChainHasAppend(st: seq<State>, s: State, x: int, c: char)
    requires Linked(st, |st|) && -1 <= x < |st| && ChainHas(st, |st|, x, c)
    ensures Linked(st + [s], |st|) && ChainHas(st + [s], |st|, x, c)
    decreases Bound(st, x) + 1
  {
    var r := st + [s];
    forall v | 0 <= v < |st|
      ensures r[v] == st[v]
    {
    }
    if x != -1 {
      ChainHasAppend(st, s, st[x].link, c);
    }
  }

  lemma AppendKeeps(st: seq<State>, s: State)
    requires Linked(st, |st|) && InRange(st) && s.len >= 0 && s.link == -1
    requires forall a :: a in s.next ==> 0 <= s.next[a] <= |st|
    ensures Linked(st + [s], |st| + 1) && InRange(st + [s])
  {
    var r := st + [s];
    forall v | 0 <= v < |st|
      ensures r[v].link == st[v].link && (st[v].link != -1 ==> r[st[v].link] == st[st[v].link])
    {
      assert r[v] == st[v];
    }
    assert r[|st|].link == -1;
    forall v, a | 0 <= v < |r| && a in r[v].next
      ensures 0 <= r[v].next[a] < |r|
    {
      if v < |st| {
        assert r[v] == st[v];
      }
    }
  }

  lemma AppendCloneKeeps(st: seq<State>, s: State)
    requires Linked(st, |st|) && InRange(st)
    requires forall a :: a in s.next ==> 0 <= s.next[a] < |st|
    ensures Linked(st + [s], |st|) && InRange(st + [s])
  {
    var r := st + [s];
    forall v, a | 0 <= v < |r| && a in r[v].next
      ensures 0 <= r[v].next[a] < |r|
    {
      if v < |st| {
        assert r[v] == st[v];
      }
    }
  }

  /** The arena with the new state of lines 35-36 appended: one longer than `last`, no
      link yet and no transitions. */
  function Appended(st: seq<State>, last: int): (r: seq<State>)
    requires Linked(st, |st|) && InRange(st) && 0 <= last < |st|
    ensures r == st + [State(st[last].len + 1, -1, map[])]
    ensures Linked(r, |r|) && InRange(r)
  {
    AppendKeeps(st, State(st[last].len + 1, -1, map[]));
    st + [State(st[last].len + 1, -1, map[])]
  }

  /** The arena after the first walk from `last`, and the state `p` it stops at. */
  function Walked(st: seq<State>, last: int, c: char): (r: (seq<State>, int))
    requires Linked(st, |st|) && InRange(st) && 0 <= last < |st|
    ensures |r.0| == |st| + 1 && Linked(r.0, |r.0|) && InRange(r.0)
    ensures -1 <= r.1 < |r.0| && (r.1 == -1 || c in r.0[r.1].next)
  {
    AddWalkKeeps(Appended(st, last), last, c, |st|);
    AddWalk(Appended(st, last), last, c, |st|)
  }

  /** The clone of `q`, the target of `p` on `c` (lines 49-53): as long as `p` plus one,
      with the link and a copy of the transitions of `q`. */
  function CloneOf(st: seq<State>, p: int, c: char): (s: State)
    requires InRange(st) && 0 <= p < |st| && c in st[p].next
    ensures forall a :: a in s.next ==> 0 <= s.next[a] < |st|
  {
    var q := st[p].next[c];
    State(st[p].len + 1, st[q].link, st[q].next)
  }

  /** The arena with the clone appended and the second walk done from `p`. */
  function Redirected(st: seq<State>, p: int, c: char): (r: seq<State>)
    requires Linked(st, |st|) && InRange(st) && 0 <= p < |st| && c in st[p].next
    ensures |r| == |st| + 1
  {
    AppendCloneKeeps(st, CloneOf(st, p, c));
    Redirect(st + [CloneOf(st, p, c)], p, c, st[p].next[c], |st|)
  }

  /** `extend(c)` with `cur` the new state: the first walk, then a link to 0, to `q`,
      or to a clone of `q` that takes over the transitions of the second walk.  The new
      state comes right after the old ones, and the clone, when there is one, after it. */
  function Extended(st: seq<State>, last: int, c: char): (r: (seq<State>, int))
    requires Linked(st, |st|) && InRange(st) && 0 <= last < |st|
    ensures r.1 == |st| && (|r.0| == |st| + 1 || |r.0| == |st| + 2)
  {
    var cur := |st|;
    var st2 := Walked(st, last, c).0;
    var p := Walked(st, last, c).1;
    if p == -1 then
      (st2[cur := st2[cur].(link := 0)], cur)
    else
      var q := st2[p].next[c];
      if st2[p].len + 1 == st2[q].len then
        (st2[cur := st2[cur].(link := q)], cur)
      else
        var clone := |st2|;
        var st4 := Redirected(st2, p, c);
        (st4[q := st4[q].(link := clone)][cur := st4[cur].(link := clone)], cur)
  }

  // ---------------------------------------------------------------- the walks

  /** `v` has a transition on `c`. */
  predicate Has(st: seq<State>, c: char, v: int)
    requires 0 <= v < |st|
  {
    c in st[v].next
  }

  /** Below length `X`, a state of `S` has a transition on `c` whenever a longer one does. */
  ghost predicate HasDown(sta: seq<State>, S: set<int>, c: char, X: int)
  {
    forall y, v {:trigger Has(sta, c, y), Has(sta, c, v)} ::
      0 <= v < |sta| && 0 <= y < |sta| && y in S && v in S && sta[v].len <= sta[y].len <= X &&
      Has(sta, c, y) ==>
        Has(sta, c, v)
  }

  /** `S` is closed under links and holds at most one state per length interval of a
      class: the shape of the suffix states of an automaton, read on the first `n` states. */
  ghost predicate SufChain(st: seq<State>, n: int, S: set<int>)
    requires Linked(st, n)
  {
    (forall y :: y in S ==> 0 <= y < n) &&
    (forall y {:trigger Link(st, y)} :: y in S ==> Link(st, y) == -1 || Link(st, y) in S) &&
    (forall y, v {:trigger Link(st, y), v in S} ::
       y in S && v in S && Bound(st, Link(st, y)) < st[v].len <= st[y].len ==> v == y)
  }

  /** The link of `y`, named so that following it is a step the proofs take on purpose. */
  function Link(st: seq<State>, y: int): int
    requires 0 <= y < |st|
  {
    st[y].link
  }

  lemma SufChainFrame(st: seq<State>, st': seq<State>, n: int, S: set<int>)
    requires Linked(st, n) && SufChain(st, n, S) && n <= |st'|
    requires forall v :: 0 <= v < n ==> st'[v].len == st[v].len && st'[v].link == st[v].link
    ensures Linked(st', n) && SufChain(st', n, S)
  {
    forall v | 0 <= v < n
      ensures Link(st', v) == Link(st, v) && st'[v].link == st[v].link
      ensures st[v].link != -1 ==> st'[st[v].link].len == st[st[v].link].len
    {
      assert st[v].link == Link(st, v);
    }
  }

  /** A chain read in the first `n` states stays one in a larger arena that agrees on
      their lengths and links. */
  lemma SufChainGrow(st: seq<State>, st': seq<State>, n: int, n': int, S: set<int>)
    requires Linked(st, n) && SufChain(st, n, S) && n <= n' && Linked(st', n')
    requires forall v :: 0 <= v < n ==> st'[v].len == st[v].len && st'[v].link == st[v].link
    ensures SufChain(st', n', S)
  {
    forall v | 0 <= v < n
      ensures Link(st', v) == Link(st, v) && st'[v].link == st[v].link
      ensures st[v].link != -1 ==> st'[st[v].link].len == st[st[v].link].len
    {
      assert st[v].link == Link(st, v);
    }
  }

  /** The first walk from `x` in `S` gives every state of `S` no longer than `x` that has
      no transition on `c` one to `cur`, and changes nothing else. */
  lemma {:induction false} AddWalkStates(sta: seq<State>, S: set<int>, c: char, cur: int, x: int)
    requires Linked(sta, |sta|) && SufChain(sta, |sta|, S)
    requires x == -1 || x in S
    requires HasDown(sta, S, c, Bound(sta, x))
    ensures var r := AddWalk(sta, x, c, cur).0;
      forall v :: 0 <= v < |sta| ==>
        r[v] == (if v in S && sta[v].len <= Bound(sta, x) && c !in sta[v].next
                 then sta[v].(next := sta[v].next[c := cur]) else sta[v])
    decreases Bound(sta, x) + 1
  {
    if x == -1 || Has(sta, c, x) {
      forall v | 0 <= v < |sta| && v in S && sta[v].len <= Bound(sta, x)
        ensures Has(sta, c, v)
      {
      }
    } else {
      var sta' := AddTransition(sta, x, c, cur);
      var x' := Link(sta, x);
      AddTransitionLinked(sta, |sta|, x, c, cur);
      SufChainFrame(sta, sta', |sta|, S);
      forall y, v | 0 <= v < |sta'| && 0 <= y < |sta'| && y in S && v in S &&
                    sta'[v].len <= sta'[y].len <= Bound(sta', x') && Has(sta', c, y)
        ensures Has(sta', c, v)
      {
        assert y != x && v != x;
        assert sta'[y] == sta[y] && sta'[v] == sta[v];
        assert Has(sta, c, y) && Has(sta', c, v) == Has(sta, c, v);
      }
      AddWalkStates(sta', S, c, cur, x');
      var r := AddWalk(sta', x', c, cur).0;
      assert AddWalk(sta, x, c, cur).0 == r;
      forall v | 0 <= v < |sta|
        ensures r[v] == (if v in S && sta[v].len <= Bound(sta, x) && c !in sta[v].next
                         then sta[v].(next := sta[v].next[c := cur]) else sta[v])
      {
        if v != x {
          assert sta'[v] == sta[v];
          if v in S && Bound(sta, x') < sta[v].len <= Bound(sta, x) {
            assert false;
          }
        }
      }
    }
  }

  /** The first walk from `x` in `S` stops at the longest state of `S` no longer than `x`
      that has a transition on `c`, or at -1 when there is none. */
  lemma {:induction false} AddWalkTop(sta: seq<State>, S: set<int>, c: char, cur: int, x: int)
    requires Linked(sta, |sta|) && SufChain(sta, |sta|, S)
    requires x == -1 || x in S
    ensures var p := AddWalk(sta, x, c, cur).1;
      (p == -1 ==> forall v :: v in S && sta[v].len <= Bound(sta, x) ==> c !in sta[v].next) &&
      (p != -1 ==>
        p in S && c in sta[p].next && sta[p].len <= Bound(sta, x) &&
        forall v :: v in S && sta[v].len <= Bound(sta, x) && c in sta[v].next ==> sta[v].len <= sta[p].len)
    decreases Bound(sta, x) + 1
  {
    if x != -1 && c !in sta[x].next {
      var sta' := AddTransition(sta, x, c, cur);
      var x' := Link(sta, x);
      AddTransitionLinked(sta, |sta|, x, c, cur);
      SufChainFrame(sta, sta', |sta|, S);
      AddWalkTop(sta', S, c, cur, x');
      var p := AddWalk(sta', x', c, cur).1;
      assert AddWalk(sta, x, c, cur).1 == p;
      if p != -1 {
        assert sta'[p] == sta[p];
      }
      forall v | v in S && sta[v].len <= Bound(sta, x) && c in sta[v].next
        ensures sta[v].len <= Bound(sta, x') && c in sta'[v].next
      {
        if Bound(sta, x') < sta[v].len {
          assert false;
        }
        assert sta'[v] == sta[v];
      }
    }
  }

  /** `v` has a transition on `c` into `q`. */
  predicate Into(st: seq<State>, c: char, q: int, v: int)
    requires 0 <= v < |st|
  {
    c in st[v].next && st[v].next[c] == q
  }

  /** Below length `X`, the states of `S` with a transition on `c` into `q` form an
      unbroken run: every state of `S` between two of them has one too. */
  ghost predicate RunInto(sta: seq<State>, S: set<int>, c: char, q: int, X: int)
  {
    forall y, v {:trigger Into(sta, c, q, v), Into(sta, c, q, y)} ::
      0 <= v < |sta| && 0 <= y < |sta| && y in S && v in S && sta[v].len <= sta[y].len <= X &&
      Into(sta, c, q, v) ==>
        Into(sta, c, q, y)
  }

  /** `r` is `sta` with the transitions on `c` into `q` of the states of `S` no longer
      than `X` sent to `clone`. */
  ghost predicate RedirectedBelow(sta: seq<State>, r: seq<State>, S: set<int>, c: char, q: int, clone: int, X: int)
  {
    |r| == |sta| &&
    forall v :: 0 <= v < |sta| ==>
      r[v] == (if v in S && sta[v].len <= X && Into(sta, c, q, v)
               then sta[v].(next := sta[v].next[c := clone]) else sta[v])
  }

  /** The second walk from `x` in `S` sends to `clone` exactly the transitions on `c` into
      `q` of the states of `S` no longer than `x`, provided those states form a run. */
  lemma {:induction false} RedirectMarks(sta: seq<State>, S: set<int>, c: char, q: int, clone: int, x: int)
    requires Linked(sta, |sta| - 1) && SufChain(sta, |sta| - 1, S)
    requires -1 <= x < |sta| - 1 && (x == -1 || x in S)
    requires RunInto(sta, S, c, q, Bound(sta, x))
    ensures RedirectedBelow(sta, Redirect(sta, x, c, q, clone), S, c, q, clone, Bound(sta, x))
    decreases Bound(sta, x) + 1
  {
    if x == -1 || !Into(sta, c, q, x) {
      RedirectNone(sta, S, c, q, clone, x);
    } else {
      var sta' := AddTransition(sta, x, c, clone);
      var x' := Link(sta, x);
      AddTransitionLinked(sta, |sta| - 1, x, c, clone);
      SufChainFrame(sta, sta', |sta| - 1, S);
      RunBelow(sta, S, c, q, clone, x);
      assert x' == -1 || x' in S;
      RedirectMarks(sta', S, c, q, clone, x');
      assert Redirect(sta, x, c, q, clone) == Redirect(sta', x', c, q, clone);
      RedirectStep(sta, S, c, q, clone, x, Redirect(sta', x', c, q, clone));
    }
  }

  lemma RedirectNone(sta: seq<State>, S: set<int>, c: char, q: int, clone: int, x: int)
    requires Linked(sta, |sta| - 1) && SufChain(sta, |sta| - 1, S) && (x == -1 || x in S)
    requires RunInto(sta, S, c, q, Bound(sta, x))
    requires x == -1 || !Into(sta, c, q, x)
    ensures RedirectedBelow(sta, sta, S, c, q, clone, Bound(sta, x))
  {
    forall v | 0 <= v < |sta| && v in S && sta[v].len <= Bound(sta, x)
      ensures !Into(sta, c, q, v)
    {
    }
  }

  /** Redirecting `x` leaves the run of transitions into `q` below its link intact. */
  lemma RunBelow(sta: seq<State>, S: set<int>, c: char, q: int, clone: int, x: int)
    requires Linked(sta, |sta| - 1) && SufChain(sta, |sta| - 1, S) && x in S
    requires RunInto(sta, S, c, q, Bound(sta, x))
    ensures RunInto(AddTransition(sta, x, c, clone), S, c, q, Bound(AddTransition(sta, x, c, clone), Link(sta, x)))
  {
    var sta' := AddTransition(sta, x, c, clone);
    assert Bound(sta', Link(sta, x)) == Bound(sta, Link(sta, x));
    forall y, v | 0 <= v < |sta'| && 0 <= y < |sta'| && y in S && v in S &&
                  sta'[v].len <= sta'[y].len <= Bound(sta, Link(sta, x)) && Into(sta', c, q, v)
      ensures Into(sta', c, q, y)
    {
      assert y != x && v != x;
      assert sta'[y] == sta[y] && sta'[v] == sta[v];
      assert Into(sta, c, q, v) && Into(sta', c, q, y) == Into(sta, c, q, y);
    }
  }

  /** One step of the second walk: redirecting `x` and then the states below its link
      redirects the states below `x`. */
  lemma RedirectStep(sta: seq<State>, S: set<int>, c: char, q: int, clone: int, x: int, r: seq<State>)
    requires Linked(sta, |sta| - 1) && SufChain(sta, |sta| - 1, S) && x in S
    requires Into(sta, c, q, x)
    requires RedirectedBelow(AddTransition(sta, x, c, clone), r, S, c, q, clone,
                             Bound(AddTransition(sta, x, c, clone), Link(sta, x)))
    ensures RedirectedBelow(sta, r, S, c, q, clone, Bound(sta, x))
  {
    var sta' := AddTransition(sta, x, c, clone);
    forall v | 0 <= v < |sta|
      ensures r[v] == (if v in S && sta[v].len <= Bound(sta, x) && Into(sta, c, q, v)
                       then sta[v].(next := sta[v].next[c := clone]) else sta[v])
    {
      if v != x {
        assert sta'[v] == sta[v];
        assert Into(sta', c, q, v) == Into(sta, c, q, v);
        if v in S && Bound(sta, Link(sta, x)) < sta[v].len <= Bound(sta, x) {
          assert false;
        }
      }
    }
  }
}
