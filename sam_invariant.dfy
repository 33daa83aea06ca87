/** `extend(c)` of Algorithms/SuffixAutomation.java turns the suffix automaton of `T`
    into the suffix automaton of `T + [c]`: every part of `Automaton` is kept. */
module SuffixAutomatonInvariant {
  import opened SuffixAutomatonTheory
  import opened SuffixAutomatonExtend
  import opened SuffixAutomatonGrow

  /** End positions for the grown arena: the new state and the clone both end the longest
      strings of their classes at the end of the new text. */
  function NewFp(T: seq<char>, st: seq<State>, fp: seq<int>, c: char, p: int): seq<int>
    requires Shape(st) && Stop(st, c, p)
  {
    if Solid(st, c, p) then fp + [|T| + 1] else fp + [|T| + 1, |T| + 1]
  }

  /** `st'` is what `extend(c)` makes of the automaton `st` of `T`, whose first walk
      stops at `p`. */
  ghost predicate Step(T: seq<char>, st: seq<State>, fp: seq<int>, last: int, c: char, p: int, st': seq<State>)
  {
    Automaton(T, st, fp, last) && Stop(st, c, p) && Top(T, st, fp, c, p) && Grown(T, st, fp, c, p, st')
  }

  /** The state the first walk stops at is shorter than the text, and its transition on
      `c` leads to a class holding `Long(p) + [c]`. */
  lemma StopFacts(T: seq<char>, st: seq<State>, fp: seq<int>, c: char, p: int)
    requires Base(T, st, fp) && Targets(T, st, fp) && Stop(st, c, p) && p != -1
    ensures st[p].len < |T|
    ensures var q := Target(st, c, p);
      1 <= q < |st| && st[p].len + 1 <= st[q].len && MinLen(st, q) <= st[p].len + 1 &&
      EndsAt(T, Long(T, st, fp, p) + [c], fp[q])
  {
    var q := Target(st, c, p);
    assert 0 <= q < |st|;
    assert InClass(T, st, fp, Long(T, st, fp, p) + [c], q);
    assert st[q].len >= 1 && st[0].len == 0;
    if q == 0 {
      assert false;
    }
  }

  // ---------------------------------------------------------------- the arena

  /** The facts about `p` and `q` that the shape of the grown arena rests on. */
  ghost predicate StopShape(T: seq<char>, st: seq<State>, c: char, p: int)
    requires Shape(st) && Stop(st, c, p)
  {
    p != -1 ==>
      var q := Target(st, c, p);
      st[p].len < |T| && 1 <= q < |st| && st[p].len + 1 <= st[q].len && MinLen(st, q) <= st[p].len + 1
  }

  /** The number of states after the step. */
  function NewSize(st: seq<State>, c: char, p: int): int
    requires Shape(st) && Stop(st, c, p)
  {
    if Solid(st, c, p) then |st| + 1 else |st| + 2
  }

  /** The length of state `v` after the step. */
  function NewLen(T: seq<char>, st: seq<State>, c: char, p: int, v: int): int
    requires Shape(st) && Stop(st, c, p) && 0 <= v < NewSize(st, c, p)
  {
    if v < |st| then st[v].len else if v == |st| then |T| + 1 else st[p].len + 1
  }

  /** The link of state `v` after the step. */
  function NewLink(st: seq<State>, c: char, p: int, v: int): int
    requires Shape(st) && Stop(st, c, p) && 0 <= v < NewSize(st, c, p)
  {
    if v < |st| then (if !Solid(st, c, p) && v == Target(st, c, p) then |st| + 1 else st[v].link)
    else if v == |st| then (if p == -1 then 0 else if Solid(st, c, p) then Target(st, c, p) else |st| + 1)
    else st[Target(st, c, p)].link
  }

  /** The transitions of state `v` after the step. */
  ghost function NewNextOf(T: seq<char>, st: seq<State>, fp: seq<int>, c: char, p: int, v: int): map<char, int>
    requires Base(T, st, fp) && Stop(st, c, p) && 0 <= v < NewSize(st, c, p)
  {
    if v < |st| then NewNext(T, st, fp, c, p, v)
    else if v == |st| then map[]
    else NewNext(T, st, fp, c, p, Target(st, c, p))
  }

  lemma GrownShape(T: seq<char>, st: seq<State>, fp: seq<int>, c: char, p: int, st': seq<State>)
    requires Base(T, st, fp) && Stop(st, c, p) && Grown(T, st, fp, c, p, st')
    ensures |st'| == NewSize(st, c, p)
    ensures forall v {:trigger st'[v]} :: 0 <= v < |st'| ==>
      st'[v].len == NewLen(T, st, c, p, v) && st'[v].link == NewLink(st, c, p, v) &&
      st'[v].next == NewNextOf(T, st, fp, c, p, v)
  {
    forall v | 0 <= v < |st'|
      ensures st'[v].len == NewLen(T, st, c, p, v) && st'[v].link == NewLink(st, c, p, v)
      ensures st'[v].next == NewNextOf(T, st, fp, c, p, v)
    {
      GrownAt(T, st, fp, c, p, v, st'[v]);
    }
  }

  /** State `v` of the grown arena, with its parts as `Grown` gives them. */
  lemma GrownAt(T: seq<char>, st: seq<State>, fp: seq<int>, c: char, p: int, v: int, s: State)
    requires Base(T, st, fp) && Stop(st, c, p) && 0 <= v < NewSize(st, c, p)
    requires v < |st| ==>
      s == State(st[v].len, if !Solid(st, c, p) && v == Target(st, c, p) then |st| + 1 else st[v].link,
                 NewNext(T, st, fp, c, p, v))
    requires v == |st| ==>
      s == State(|T| + 1, if p == -1 then 0 else if Solid(st, c, p) then Target(st, c, p) else |st| + 1, map[])
    requires v == |st| + 1 ==>
      s == State(st[p].len + 1, st[Target(st, c, p)].link, NewNext(T, st, fp, c, p, Target(st, c, p)))
    ensures s.len == NewLen(T, st, c, p, v) && s.link == NewLink(st, c, p, v)
    ensures s.next == NewNextOf(T, st, fp, c, p, v)
  {
  }

  /** The links after the step lead to shorter states, and only the initial state has
      none. */
  lemma NewLinked(T: seq<char>, st: seq<State>, c: char, p: int, v: int)
    requires Shape(st) && Stop(st, c, p) && StopShape(T, st, c, p) && 0 <= v < NewSize(st, c, p)
    requires forall u :: 0 <= u < |st| ==> st[u].len <= |T|
    ensures NewLen(T, st, c, p, v) >= 0 && -1 <= NewLink(st, c, p, v) < NewSize(st, c, p)
    ensures NewLink(st, c, p, v) != -1 ==>
      NewLen(T, st, c, p, NewLink(st, c, p, v)) < NewLen(T, st, c, p, v)
    ensures (v == 0 <==> NewLink(st, c, p, v) == -1) && NewLen(T, st, c, p, 0) == 0
  {
    if v < |st| {
      assert st[v].link == -1 <==> v == 0;
    } else if v == |st| + 1 {
      var q := Target(st, c, p);
      assert 0 <= st[q].link < |st| && st[st[q].link].len < MinLen(st, q);
    }
  }

  lemma BaseKept(T: seq<char>, st: seq<State>, fp: seq<int>, c: char, p: int, st': seq<State>)
    requires Base(T, st, fp) && Stop(st, c, p) && StopShape(T, st, c, p) && Grown(T, st, fp, c, p, st')
    ensures Base(T + [c], st', NewFp(T, st, fp, c, p))
  {
    var N := |st|;
    var fp' := NewFp(T, st, fp, c, p);
    GrownShape(T, st, fp, c, p, st');
    forall v | 0 <= v < |st'|
      ensures st'[v].len >= 0 && -1 <= st'[v].link < |st'|
      ensures st'[v].link != -1 ==> st'[st'[v].link].len < st'[v].len
      ensures v >= 1 ==> st'[v].link != -1
      ensures st'[v].len <= fp'[v] <= |T| + 1
    {
      NewLinked(T, st, c, p, v);
    }
    NewLinked(T, st, c, p, 0);
    forall v, a | 0 <= v < |st'| && a in st'[v].next
      ensures 0 <= st'[v].next[a] < |st'|
    {
      NewNextOfInRange(T, st, fp, c, p, v, a);
    }
  }

  lemma NewNextOfInRange(T: seq<char>, st: seq<State>, fp: seq<int>, c: char, p: int, v: int, a: char)
    requires Base(T, st, fp) && Stop(st, c, p) && 0 <= v < NewSize(st, c, p)
    requires a in NewNextOf(T, st, fp, c, p, v)
    ensures 0 <= NewNextOf(T, st, fp, c, p, v)[a] < NewSize(st, c, p)
  {
    if v < |st| {
      NewNextInRange(T, st, fp, c, p, v, a);
    } else if v == |st| + 1 {
      NewNextInRange(T, st, fp, c, p, Target(st, c, p), a);
    }
  }

  lemma NewNextInRange(T: seq<char>, st: seq<State>, fp: seq<int>, c: char, p: int, v: int, a: char)
    requires Base(T, st, fp) && Stop(st, c, p) && 0 <= v < |st| && a in NewNext(T, st, fp, c, p, v)
    ensures 0 <= NewNext(T, st, fp, c, p, v)[a] < (if Solid(st, c, p) then |st| + 1 else |st| + 2)
  {
    if a != c || !(a in st[v].next) || NewNext(T, st, fp, c, p, v) == st[v].next {
      if a in st[v].next {
        assert NewNext(T, st, fp, c, p, v)[a] == st[v].next[a] || a == c;
      }
    }
  }

  // ---------------------------------------------------------------- the classes after the step

  /** The longest string of state `v` after the step: an old state keeps its own, the
      new state stands for the whole new text and the clone for `Long(p) + [c]`. */
  ghost function NewLong(T: seq<char>, st: seq<State>, fp: seq<int>, c: char, p: int, v: int): seq<char>
    requires Base(T, st, fp) && Stop(st, c, p) && 0 <= v < NewSize(st, c, p)
  {
    if v < |st| then Long(T, st, fp, v)
    else if v == |st| then T + [c]
    else Long(T, st, fp, p) + [c]
  }

  /** The end position of the longest string of state `v` after the step. */
  function NewEnd(T: seq<char>, st: seq<State>, fp: seq<int>, c: char, p: int, v: int): int
    requires Shape(st) && |fp| == |st| && Stop(st, c, p) && 0 <= v < NewSize(st, c, p)
  {
    if v < |st| then fp[v] else |T| + 1
  }

  /** The length of the shortest string of state `v` after the step. */
  function NewMin(st: seq<State>, c: char, p: int, v: int): int
    requires Shape(st) && Stop(st, c, p) && 0 <= v < NewSize(st, c, p)
  {
    if v < |st| then (if !Solid(st, c, p) && v == Target(st, c, p) then st[p].len + 2 else MinLen(st, v))
    else if v == |st| then (if p == -1 then 1 else st[p].len + 2)
    else MinLen(st, Target(st, c, p))
  }

  /** The grown arena, read through the old automaton. */
  ghost predicate World(T: seq<char>, st: seq<State>, fp: seq<int>, c: char, p: int, st': seq<State>)
    requires Base(T, st, fp) && Stop(st, c, p)
  {
    Base(T + [c], st', NewFp(T, st, fp, c, p)) && |st'| == NewSize(st, c, p) &&
    (forall v {:trigger st'[v]} :: 0 <= v < |st'| ==>
       st'[v].len == NewLen(T, st, c, p, v) && st'[v].link == NewLink(st, c, p, v) &&
       st'[v].next == NewNextOf(T, st, fp, c, p, v)) &&
    (forall v :: 0 <= v < |st'| ==> NewFp(T, st, fp, c, p)[v] == NewEnd(T, st, fp, c, p, v)) &&
    (forall v :: 0 <= v < |st'| ==> Long(T + [c], st', NewFp(T, st, fp, c, p), v) == NewLong(T, st, fp, c, p, v)) &&
    (forall v :: 0 <= v < |st'| ==> MinLen(st', v) == NewMin(st, c, p, v))
  }

  lemma WorldOf(T: seq<char>, st: seq<State>, fp: seq<int>, c: char, p: int, st': seq<State>)
    requires Base(T, st, fp) && Stop(st, c, p) && StopShape(T, st, c, p) && Grown(T, st, fp, c, p, st')
    requires p != -1 ==> SufState(T, st, fp, p)
    ensures World(T, st, fp, c, p, st')
  {
    BaseKept(T, st, fp, c, p, st');
    GrownShape(T, st, fp, c, p, st');
    var fp' := NewFp(T, st, fp, c, p);
    forall v | 0 <= v < |st'|
      ensures fp'[v] == NewEnd(T, st, fp, c, p, v)
      ensures Long(T + [c], st', fp', v) == NewLong(T, st, fp, c, p, v)
      ensures MinLen(st', v) == NewMin(st, c, p, v)
    {
      LongAt(T, st, fp, c, p, st', v);
      NewLinked(T, st, c, p, v);
      MinAt(T, st, c, p, st', v);
    }
  }

  lemma LongAt(T: seq<char>, st: seq<State>, fp: seq<int>, c: char, p: int, st': seq<State>, v: int)
    requires Base(T, st, fp) && Stop(st, c, p) && (p != -1 ==> SufState(T, st, fp, p))
    requires Base(T + [c], st', NewFp(T, st, fp, c, p)) && |st'| == NewSize(st, c, p)
    requires 0 <= v < |st'| && st'[v].len == NewLen(T, st, c, p, v)
    ensures NewFp(T, st, fp, c, p)[v] == NewEnd(T, st, fp, c, p, v)
    ensures Long(T + [c], st', NewFp(T, st, fp, c, p), v) == NewLong(T, st, fp, c, p, v)
  {
    var T' := T + [c];
    var fp' := NewFp(T, st, fp, c, p);
    if v < |st| {
      assert fp'[v] == fp[v];
      assert T'[fp[v] - st[v].len..fp[v]] == T[fp[v] - st[v].len..fp[v]];
    } else if v == |st| {
      assert fp'[v] == |T| + 1;
      assert T'[0..|T| + 1] == T';
    } else {
      assert fp'[v] == |T| + 1;
      var k := |T| - st[p].len;
      assert T'[k..|T| + 1] == T[k..|T|] + [c];
    }
  }

  lemma MinAt(T: seq<char>, st: seq<State>, c: char, p: int, st': seq<State>, v: int)
    requires Shape(st) && Stop(st, c, p) && StopShape(T, st, c, p)
    requires Linked(st', |st'|) && |st'| == NewSize(st, c, p) && 0 <= v < |st'|
    requires st'[v].link == NewLink(st, c, p, v)
    requires -1 <= NewLink(st, c, p, v) < |st'|
    requires NewLink(st, c, p, v) != -1 ==>
      st'[NewLink(st, c, p, v)].len == NewLen(T, st, c, p, NewLink(st, c, p, v))
    ensures MinLen(st', v) == NewMin(st, c, p, v)
  {
    if v == |st| + 1 {
      var q := Target(st, c, p);
      assert st[q].link != -1;
    }
  }
}
