/** The semantic half of `extend(c)` (Algorithms/SuffixAutomation.java, lines 34-62):
    read through `World`, the grown arena satisfies every part of `Automaton` for the
    text `T + [c]`. Each part is proved state by state on the old automaton. */
module SuffixAutomatonKept {
  import opened SuffixAutomatonTheory
  import opened SuffixAutomatonExtend
  import opened SuffixAutomatonGrow
  import opened SuffixAutomatonInvariant

  /** What the step rests on, stated without the automaton's own quantifiers: no suffix
      of `T` longer than `Long(p)` occurs followed by `c`, and `Long(p) + [c]` belongs to
      the class of `q` and is a suffix of the new text. */
  ghost predicate Pre(T: seq<char>, st: seq<State>, fp: seq<int>, c: char, p: int)
  {
    Base(T, st, fp) && Stop(st, c, p) && StopShape(T, st, c, p) &&
    (forall x {:trigger Extends(T, x, c)} :: EndsAt(T, x, |T|) && Extends(T, x, c) ==>
       p != -1 && |x| <= st[p].len) &&
    (p != -1 ==>
       var P := Long(T, st, fp, p); var q := Target(st, c, p);
       EndsAt(T, P, |T|) && InClass(T, st, fp, P + [c], q) &&
       EndsAt(T + [c], P + [c], |T| + 1) && EndsAt(T + [c], P + [c], fp[q]))
  }

  lemma PreOf(T: seq<char>, st: seq<State>, fp: seq<int>, last: int, c: char, p: int)
    requires Automaton(T, st, fp, last) && Stop(st, c, p) && Top(T, st, fp, c, p)
    ensures StopShape(T, st, c, p) && Pre(T, st, fp, c, p)
  {
    if p != -1 {
      StopFacts(T, st, fp, c, p);
      var P := Long(T, st, fp, p);
      var q := Target(st, c, p);
      assert InClass(T, st, fp, P + [c], q);
      AppendLast(T, c, P);
      EndsAtGrow(T, c, P + [c], fp[q]);
    }
    forall x | EndsAt(T, x, |T|) && Extends(T, x, c)
      ensures p != -1 && |x| <= st[p].len
    {
      TopLongest(T, st, fp, last, c, p, x);
    }
  }

  // ---------------------------------------------------------------- strings

  /** A suffix of `T` followed by `a` is a suffix of `T + [a]`. */
  lemma AppendLast(T: seq<char>, a: char, x: seq<char>)
    requires EndsAt(T, x, |T|)
    ensures EndsAt(T + [a], x + [a], |T| + 1)
  {
    assert (T + [a])[|T| - |x|..|T| + 1] == T[|T| - |x|..|T|] + [a];
  }

  lemma AppendOne(T: seq<char>, y: seq<char>, a: char, e: int)
    requires 1 <= e <= |T| && EndsAt(T, y, e - 1) && T[e - 1] == a
    ensures EndsAt(T, y + [a], e)
  {
    assert T[e - |y| - 1..e] == T[e - 1 - |y|..e - 1] + [a];
  }

  /** Strings with the same end positions keep them equal when both are extended by `a`. */
  lemma AppendSameEnds(T: seq<char>, x: seq<char>, y: seq<char>, a: char)
    requires forall e :: EndsAt(T, x, e) <==> EndsAt(T, y, e)
    ensures forall e :: EndsAt(T, x + [a], e) <==> EndsAt(T, y + [a], e)
  {
    forall e ensures EndsAt(T, x + [a], e) ==> EndsAt(T, y + [a], e) {
      if EndsAt(T, x + [a], e) {
        DropLast(T, x, a, e);
        AppendOne(T, y, a, e);
      }
    }
    forall e ensures EndsAt(T, y + [a], e) ==> EndsAt(T, x + [a], e) {
      if EndsAt(T, y + [a], e) {
        DropLast(T, y, a, e);
        AppendOne(T, x, a, e);
      }
    }
  }

  /** Two strings of one length ending at the same position are equal. */
  lemma SameEnd(T: seq<char>, x: seq<char>, y: seq<char>, e: int)
    requires EndsAt(T, x, e) && EndsAt(T, y, e) && |x| == |y|
    ensures x == y
  {
  }

  /** Occurrences followed by `a` in `T + [c]`: the old ones, and the suffixes of `T`
      when `a` is `c`. */
  lemma ExtendsGrow(T: seq<char>, c: char, x: seq<char>, a: char)
    ensures Extends(T + [c], x, a) <==> Extends(T, x, a) || (a == c && EndsAt(T, x, |T|))
  {
    var T' := T + [c];
    if Extends(T', x, a) {
      var e :| EndsAt(T', x, e) && e < |T'| && T'[e] == a;
      EndsAtGrow(T, c, x, e);
      if e < |T| {
        assert T[e] == a;
      }
    }
    if Extends(T, x, a) {
      var e :| EndsAt(T, x, e) && e < |T| && T[e] == a;
      EndsAtGrow(T, c, x, e);
      assert T'[e] == a;
    }
    if a == c && EndsAt(T, x, |T|) {
      EndsAtGrow(T, c, x, |T|);
      assert T'[|T|] == c;
    }
  }

  /** A non-empty suffix of `T + [c]` that occurs in `T` is a suffix of `T` that occurs
      followed by `c`, extended by `c`. */
  lemma LastExtends(T: seq<char>, c: char, w: seq<char>, f: int)
    requires |w| >= 1 && EndsAt(T + [c], w, f) && f > |T| && Occurs(T, w)
    ensures w == w[..|w| - 1] + [c] && EndsAt(T, w[..|w| - 1], |T|) && Extends(T, w[..|w| - 1], c)
  {
    var x := w[..|w| - 1];
    EndsAtLast(T, c, w);
    assert w == x + [c];
    var e :| EndsAt(T, w, e);
    DropLast(T, x, c, e);
  }

  // ---------------------------------------------------------------- Long(p) + [c]

  /** Without a clone, `Long(q)` is `Long(p) + [c]`. */
  lemma SolidQ(T: seq<char>, st: seq<State>, fp: seq<int>, c: char, p: int)
    requires Pre(T, st, fp, c, p) && p != -1 && Solid(st, c, p)
    ensures Long(T, st, fp, Target(st, c, p)) == Long(T, st, fp, p) + [c]
  {
    var q := Target(st, c, p);
    SameEnd(T, Long(T, st, fp, q), Long(T, st, fp, p) + [c], fp[q]);
  }

  /** A non-empty suffix of the new text that occurs in the old one is no longer than
      `Long(p) + [c]`, and ends where it does. */
  lemma LastInOld(T: seq<char>, st: seq<State>, fp: seq<int>, c: char, p: int, w: seq<char>, f: int)
    requires Pre(T, st, fp, c, p) && |w| >= 1 && EndsAt(T + [c], w, f) && f > |T| && Occurs(T, w)
    ensures p != -1 && |w| <= st[p].len + 1 && EndsAt(T, w, fp[Target(st, c, p)])
  {
    var x := w[..|w| - 1];
    LastExtends(T, c, w, f);
    assert Extends(T, x, c);
    AppendSuffixEnds(T, x, Long(T, st, fp, p), |T|, c, fp[Target(st, c, p)]);
  }

  /** A string ending where `Long(p) + [c]` does, and no longer, is a suffix of the new
      text. */
  lemma SuffixOfPc(T: seq<char>, st: seq<State>, fp: seq<int>, c: char, p: int, w: seq<char>)
    requires Pre(T, st, fp, c, p) && p != -1
    requires EndsAt(T, w, fp[Target(st, c, p)]) && |w| <= st[p].len + 1
    ensures EndsAt(T + [c], w, |T| + 1)
  {
    var q := Target(st, c, p);
    SuffixOfLast(T, c, w, Long(T, st, fp, p) + [c], fp[q]);
  }

  /** A string of the old text ending where a longer suffix of the new text does is a
      suffix of the new text as well. */
  lemma SuffixOfLast(T: seq<char>, c: char, w: seq<char>, y: seq<char>, e: int)
    requires EndsAt(T, w, e) && EndsAt(T + [c], y, e) && EndsAt(T + [c], y, |T| + 1) && |w| <= |y|
    ensures EndsAt(T + [c], w, |T| + 1)
  {
    EndsAtGrow(T, c, w, e);
    SuffixEndsAt(T + [c], w, y, e, |T| + 1);
  }

  /** An old state other than `q` whose longest string ends where `q`'s does, and whose
      class reaches down to `Long(p) + [c]`, is shorter than the class of `q`. */
  lemma Below(T: seq<char>, st: seq<State>, fp: seq<int>, c: char, p: int, v: int)
    requires Pre(T, st, fp, c, p) && ClassEnds(T, st, fp) && Distinct(T, st, fp)
    requires p != -1 && 0 <= v < |st| && v != Target(st, c, p)
    requires EndsAt(T, Long(T, st, fp, v), fp[Target(st, c, p)]) && MinLen(st, v) <= st[p].len + 1
    ensures st[v].len < MinLen(st, Target(st, c, p))
  {
    var q := Target(st, c, p);
    if st[v].len >= MinLen(st, q) {
      LongInClass(T, st, fp, v);
      LongInClass(T, st, fp, q);
      if st[v].len <= st[q].len {
        assert InClass(T, st, fp, Long(T, st, fp, v), q);
        ClassUnique(T, st, fp, Long(T, st, fp, v), v, q);
        assert false;
      } else {
        SuffixEndsAt(T, Long(T, st, fp, q), Long(T, st, fp, v), fp[q], fp[v]);
        assert InClass(T, st, fp, Long(T, st, fp, q), v);
        ClassUnique(T, st, fp, Long(T, st, fp, q), v, q);
        assert false;
      }
    }
  }

  /** With a clone, `Long(q)` is not a suffix of the new text. */
  lemma QNotLast(T: seq<char>, st: seq<State>, fp: seq<int>, c: char, p: int)
    requires Pre(T, st, fp, c, p) && p != -1 && !Solid(st, c, p)
    ensures !EndsAt(T + [c], Long(T, st, fp, Target(st, c, p)), |T| + 1)
  {
    var lq := Long(T, st, fp, Target(st, c, p));
    if EndsAt(T + [c], lq, |T| + 1) {
      assert Occurs(T, lq);
      LastInOld(T, st, fp, c, p, lq, |T| + 1);
      assert false;
    }
  }

  // ---------------------------------------------------------------- links

  /** The link of every state but the initial one holds a suffix of its longest string. */
  lemma LinkSuffixAt(T: seq<char>, st: seq<State>, fp: seq<int>, c: char, p: int, v: int)
    requires Pre(T, st, fp, c, p) && LinkSuffixes(T, st, fp) && 1 <= v < NewSize(st, c, p)
    ensures 0 <= NewLink(st, c, p, v) < NewSize(st, c, p)
    ensures EndsAt(T + [c], NewLong(T, st, fp, c, p, NewLink(st, c, p, v)), NewEnd(T, st, fp, c, p, v))
  {
    NewLinked(T, st, c, p, v);
    var N := |st|;
    var u := NewLink(st, c, p, v);
    if v < N {
      if !(!Solid(st, c, p) && v == Target(st, c, p)) {
        EndsAtGrow(T, c, Long(T, st, fp, u), fp[v]);
      }
    } else if v == N {
      if p == -1 {
        assert NewLong(T, st, fp, c, p, u) == [];
      } else if Solid(st, c, p) {
        SolidQ(T, st, fp, c, p);
      }
    } else {
      var q := Target(st, c, p);
      assert u == st[q].link && 0 <= u < N;
      SuffixOfPc(T, st, fp, c, p, Long(T, st, fp, u));
    }
  }

  // ---------------------------------------------------------------- end positions of classes

  /** The strings of a class after the step end where its longest string does. */
  lemma ClassEndsAt(T: seq<char>, st: seq<State>, fp: seq<int>, c: char, p: int,
                    v: int, w: seq<char>, e: int)
    requires Pre(T, st, fp, c, p) && ClassEnds(T, st, fp) && Distinct(T, st, fp)
    requires 0 <= v < NewSize(st, c, p)
    requires NewMin(st, c, p, v) <= |w| <= NewLen(T, st, c, p, v)
    requires EndsAt(T + [c], w, NewEnd(T, st, fp, c, p, v)) && EndsAt(T + [c], w, e)
    ensures EndsAt(T + [c], NewLong(T, st, fp, c, p, v), e)
  {
    if v < |st| {
      ClassEndsAtOld(T, st, fp, c, p, v, w, e);
    } else if v == |st| {
      ClassEndsAtNew(T, st, fp, c, p, v, w, e);
    } else if e <= |T| {
      ClassEndsAtClone(T, st, fp, c, p, v, w, e);
    } else {
      CloneEndsLast(T, st, fp, c, p, v, w, e);
    }
  }

  /** The case of `ClassEndsAt` for an old state. */
  lemma ClassEndsAtOld(T: seq<char>, st: seq<State>, fp: seq<int>, c: char, p: int,
                    v: int, w: seq<char>, e: int)
    requires Pre(T, st, fp, c, p) && ClassEnds(T, st, fp) && Distinct(T, st, fp)
    requires 0 <= v < NewSize(st, c, p)
    requires NewMin(st, c, p, v) <= |w| <= NewLen(T, st, c, p, v)
    requires EndsAt(T + [c], w, NewEnd(T, st, fp, c, p, v)) && EndsAt(T + [c], w, e)
    requires v < |st|
    ensures EndsAt(T + [c], NewLong(T, st, fp, c, p, v), e)
  {
    ClassEndsOld(T, st, fp, c, p, v, w, e);
  }

  /** The case of `ClassEndsAt` for the new state. */
  lemma ClassEndsAtNew(T: seq<char>, st: seq<State>, fp: seq<int>, c: char, p: int,
                    v: int, w: seq<char>, e: int)
    requires Pre(T, st, fp, c, p) && ClassEnds(T, st, fp) && Distinct(T, st, fp)
    requires 0 <= v < NewSize(st, c, p)
    requires NewMin(st, c, p, v) <= |w| <= NewLen(T, st, c, p, v)
    requires EndsAt(T + [c], w, NewEnd(T, st, fp, c, p, v)) && EndsAt(T + [c], w, e)
    requires v == |st|
    ensures EndsAt(T + [c], NewLong(T, st, fp, c, p, v), e)
  {
    ClassEndsNew(T, st, fp, c, p, w, e);
  }

  /** The case of `ClassEndsAt` for the clone, at a position of the old text. */
  lemma ClassEndsAtClone(T: seq<char>, st: seq<State>, fp: seq<int>, c: char, p: int,
                    v: int, w: seq<char>, e: int)
    requires Pre(T, st, fp, c, p) && ClassEnds(T, st, fp) && Distinct(T, st, fp)
    requires 0 <= v < NewSize(st, c, p)
    requires NewMin(st, c, p, v) <= |w| <= NewLen(T, st, c, p, v)
    requires EndsAt(T + [c], w, NewEnd(T, st, fp, c, p, v)) && EndsAt(T + [c], w, e)
    requires v > |st| && e <= |T|
    ensures EndsAt(T + [c], NewLong(T, st, fp, c, p, v), e)
  {
    ClassEndsClone(T, st, fp, c, p, w, e);
  }

  /** The case of `ClassEndsAt` for the clone, at the end of the new text: its longest
      string, `Long(p) + [c]`, ends there. */
  lemma CloneEndsLast(T: seq<char>, st: seq<State>, fp: seq<int>, c: char, p: int,
                    v: int, w: seq<char>, e: int)
    requires Pre(T, st, fp, c, p) && ClassEnds(T, st, fp) && Distinct(T, st, fp)
    requires 0 <= v < NewSize(st, c, p)
    requires NewMin(st, c, p, v) <= |w| <= NewLen(T, st, c, p, v)
    requires EndsAt(T + [c], w, NewEnd(T, st, fp, c, p, v)) && EndsAt(T + [c], w, e)
    requires v > |st| && e > |T|
    ensures EndsAt(T + [c], NewLong(T, st, fp, c, p, v), e)
  {
    assert p != -1 && e == |T| + 1;
  }

  lemma ClassEndsOld(T: seq<char>, st: seq<State>, fp: seq<int>, c: char, p: int,
                     v: int, w: seq<char>, e: int)
    requires Pre(T, st, fp, c, p) && ClassEnds(T, st, fp) && Distinct(T, st, fp) && 0 <= v < |st|
    requires NewMin(st, c, p, v) <= |w| <= st[v].len
    requires EndsAt(T + [c], w, fp[v]) && EndsAt(T + [c], w, e)
    ensures EndsAt(T + [c], Long(T, st, fp, v), e)
  {
    InOldClass(T, st, fp, c, p, v, w);
    if e <= |T| {
      ClassEndsInside(T, st, fp, c, v, w, e);
    } else if |w| == 0 {
      assert st[v].link == -1;
    } else {
      assert e == |T| + 1;
      ClassEndsLast(T, st, fp, c, p, v, w, e);
    }
  }

  /** A string of an old state's new class was already in its old class. */
  lemma InOldClass(T: seq<char>, st: seq<State>, fp: seq<int>, c: char, p: int, v: int, w: seq<char>)
    requires Pre(T, st, fp, c, p) && 0 <= v < |st|
    requires NewMin(st, c, p, v) <= |w| <= st[v].len && EndsAt(T + [c], w, fp[v])
    ensures InClass(T, st, fp, w, v)
  {
    EndsAtGrow(T, c, w, fp[v]);
    if !Solid(st, c, p) && v == Target(st, c, p) {
      assert InClass(T, st, fp, Long(T, st, fp, p) + [c], v);
    }
  }

  /** No member of the new state's class occurs in the old text. */
  lemma ClassEndsNew(T: seq<char>, st: seq<State>, fp: seq<int>, c: char, p: int, w: seq<char>, e: int)
    requires Pre(T, st, fp, c, p)
    requires NewMin(st, c, p, |st|) <= |w| && EndsAt(T + [c], w, |T| + 1) && EndsAt(T + [c], w, e)
    ensures EndsAt(T + [c], T + [c], e)
  {
    if e <= |T| {
      EndsAtGrow(T, c, w, e);
      assert Occurs(T, w);
      LastInOld(T, st, fp, c, p, w, |T| + 1);
      assert false;
    }
    assert e == |T| + 1;
    assert (T + [c])[0..|T| + 1] == T + [c];
  }

  /** At a position of the old text, an old class keeps its end positions. */
  lemma ClassEndsInside(T: seq<char>, st: seq<State>, fp: seq<int>, c: char, v: int, w: seq<char>, e: int)
    requires Base(T, st, fp) && ClassEnds(T, st, fp) && 0 <= v < |st|
    requires InClass(T, st, fp, w, v) && e <= |T| && EndsAt(T + [c], w, e)
    ensures EndsAt(T + [c], Long(T, st, fp, v), e)
  {
    EndsAtGrow(T, c, w, e);
    EndsAtGrow(T, c, Long(T, st, fp, v), e);
  }

  /** At the end of the new text, a non-empty member of an old class there is a suffix of
      `Long(p) + [c]`, and so is the longest string of its class. */
  lemma ClassEndsLast(T: seq<char>, st: seq<State>, fp: seq<int>, c: char, p: int,
                      v: int, w: seq<char>, e: int)
    requires Pre(T, st, fp, c, p) && ClassEnds(T, st, fp) && Distinct(T, st, fp) && 0 <= v < |st|
    requires NewMin(st, c, p, v) <= |w| && |w| >= 1 && InClass(T, st, fp, w, v)
    requires EndsAt(T + [c], w, e) && e == |T| + 1
    ensures EndsAt(T + [c], Long(T, st, fp, v), e)
  {
    assert Occurs(T, w);
    LastInOld(T, st, fp, c, p, w, e);
    var q := Target(st, c, p);
    ClassSameEnds(T, st, fp, w, v, fp[q]);
    if v == q {
      SolidQ(T, st, fp, c, p);
    } else {
      Below(T, st, fp, c, p, v);
      SuffixOfPc(T, st, fp, c, p, Long(T, st, fp, v));
    }
  }

  /** The members of the clone's class that occur in the old text belong to the class
      of `q`, and so end where `Long(p) + [c]` does. */
  lemma ClassEndsClone(T: seq<char>, st: seq<State>, fp: seq<int>, c: char, p: int, w: seq<char>, e: int)
    requires Pre(T, st, fp, c, p) && ClassEnds(T, st, fp) && p != -1 && !Solid(st, c, p)
    requires MinLen(st, Target(st, c, p)) <= |w| <= st[p].len + 1
    requires EndsAt(T + [c], w, |T| + 1) && EndsAt(T + [c], w, e) && e <= |T|
    ensures EndsAt(T + [c], Long(T, st, fp, p) + [c], e)
  {
    var q := Target(st, c, p);
    EndsAtGrow(T, c, w, e);
    assert Occurs(T, w);
    assert st[q].link != -1;
    LastInOld(T, st, fp, c, p, w, |T| + 1);
    assert InClass(T, st, fp, w, q);
    ClassSameEnds(T, st, fp, w, q, e);
    ClassSameEnds(T, st, fp, Long(T, st, fp, p) + [c], q, e);
    EndsAtGrow(T, c, Long(T, st, fp, p) + [c], e);
  }

  // ---------------------------------------------------------------- every substring has a class

  /** Every substring of the new text belongs to the class of some state after the step. */
  lemma CoveredAt(T: seq<char>, st: seq<State>, fp: seq<int>, c: char, p: int, w: seq<char>)
    returns (v: int)
    requires Pre(T, st, fp, c, p) && Covered(T, st, fp) && Occurs(T + [c], w)
    ensures 0 <= v < NewSize(st, c, p)
    ensures NewMin(st, c, p, v) <= |w| <= NewLen(T, st, c, p, v)
    ensures EndsAt(T + [c], w, NewEnd(T, st, fp, c, p, v))
  {
    if Occurs(T, w) {
      var u :| 0 <= u < |st| && InClass(T, st, fp, w, u);
      v := CoveredOld(T, st, fp, c, p, w, u);
    } else {
      var e :| EndsAt(T + [c], w, e);
      if e <= |T| {
        EndsAtGrow(T, c, w, e);
        assert false;
      }
      assert e == |T| + 1;
      CoveredNew(T, st, fp, c, p, w);
      v := |st|;
    }
  }

  /** A substring of the old text stays in its old class or moves to the clone. */
  lemma CoveredOld(T: seq<char>, st: seq<State>, fp: seq<int>, c: char, p: int, w: seq<char>, u: int)
    returns (v: int)
    requires Pre(T, st, fp, c, p) && 0 <= u < |st| && InClass(T, st, fp, w, u)
    ensures 0 <= v < NewSize(st, c, p)
    ensures NewMin(st, c, p, v) <= |w| <= NewLen(T, st, c, p, v)
    ensures EndsAt(T + [c], w, NewEnd(T, st, fp, c, p, v))
  {
    if !Solid(st, c, p) && u == Target(st, c, p) && |w| <= st[p].len + 1 {
      SuffixOfPc(T, st, fp, c, p, w);
      v := |st| + 1;
    } else {
      EndsAtGrow(T, c, w, fp[u]);
      v := u;
    }
  }

  /** A substring found only at the end of the new text is long enough for the new state. */
  lemma CoveredNew(T: seq<char>, st: seq<State>, fp: seq<int>, c: char, p: int, w: seq<char>)
    requires Pre(T, st, fp, c, p) && EndsAt(T + [c], w, |T| + 1) && !Occurs(T, w)
    ensures NewMin(st, c, p, |st|) <= |w|
  {
    assert EndsAt(T, [], 0);
    if p != -1 && |w| <= st[p].len + 1 {
      var q := Target(st, c, p);
      SuffixEndsAt(T + [c], w, Long(T, st, fp, p) + [c], |T| + 1, fp[q]);
      EndsAtGrow(T, c, w, fp[q]);
      assert false;
    }
  }

  // ---------------------------------------------------------------- different states, different ends

  /** Two different states after the step have different end positions. */
  lemma DistinctAt(T: seq<char>, st: seq<State>, fp: seq<int>, c: char, p: int, u: int, v: int)
    requires Pre(T, st, fp, c, p) && ClassEnds(T, st, fp) && Distinct(T, st, fp)
    requires 0 <= u < NewSize(st, c, p) && 0 <= v < NewSize(st, c, p) && u != v
    ensures Differ(T + [c], NewLong(T, st, fp, c, p, u), NewLong(T, st, fp, c, p, v))
  {
    if u < v {
      DistinctBelow(T, st, fp, c, p, u, v);
    } else {
      DistinctBelow(T, st, fp, c, p, v, u);
      DifferSym(T + [c], NewLong(T, st, fp, c, p, v), NewLong(T, st, fp, c, p, u));
    }
  }

  lemma DifferSym(T: seq<char>, x: seq<char>, y: seq<char>)
    requires Differ(T, x, y)
    ensures Differ(T, y, x)
  {
    var e :| EndsAt(T, x, e) != EndsAt(T, y, e);
    assert EndsAt(T, y, e) != EndsAt(T, x, e);
  }

  lemma DistinctBelow(T: seq<char>, st: seq<State>, fp: seq<int>, c: char, p: int, u: int, v: int)
    requires Pre(T, st, fp, c, p) && ClassEnds(T, st, fp) && Distinct(T, st, fp)
    requires 0 <= u < v < NewSize(st, c, p)
    ensures Differ(T + [c], NewLong(T, st, fp, c, p, u), NewLong(T, st, fp, c, p, v))
  {
    var N := |st|;
    if v < N {
      DistinctOld(T, st, fp, c, p, u, v, Long(T, st, fp, v));
    } else if u < N && v == N {
      EndsAtGrow(T, c, Long(T, st, fp, u), fp[u]);
      assert EndsAt(T + [c], Long(T, st, fp, u), fp[u]) != EndsAt(T + [c], T + [c], fp[u]);
    } else if u == N {
      var q := Target(st, c, p);
      assert EndsAt(T + [c], T + [c], fp[q]) != EndsAt(T + [c], Long(T, st, fp, p) + [c], fp[q]);
    } else if u == Target(st, c, p) {
      QNotLast(T, st, fp, c, p);
      assert EndsAt(T + [c], Long(T, st, fp, u), |T| + 1) != EndsAt(T + [c], Long(T, st, fp, p) + [c], |T| + 1);
    } else {
      DistinctOld(T, st, fp, c, p, u, Target(st, c, p), Long(T, st, fp, p) + [c]);
    }
  }

  /** An old state differs from another old state, and from any string of its class. */
  lemma DistinctOld(T: seq<char>, st: seq<State>, fp: seq<int>, c: char, p: int, u: int, v: int, y: seq<char>)
    requires Base(T, st, fp) && ClassEnds(T, st, fp) && Distinct(T, st, fp)
    requires 0 <= u < |st| && 0 <= v < |st| && u != v && InClass(T, st, fp, y, v)
    ensures Differ(T + [c], Long(T, st, fp, u), y)
  {
    var x := Long(T, st, fp, u);
    var e :| EndsAt(T, x, e) != EndsAt(T, Long(T, st, fp, v), e);
    ClassSameEnds(T, st, fp, y, v, e);
    assert e <= |T|;
    EndsAtGrow(T, c, x, e);
    EndsAtGrow(T, c, y, e);
    assert EndsAt(T + [c], x, e) != EndsAt(T + [c], y, e);
  }

  // ---------------------------------------------------------------- transitions

  /** After the step an old state has a transition on `a` exactly when it had one, or `a`
      is `c` and it stands for suffixes of `T`. */
  lemma NewKeys(T: seq<char>, st: seq<State>, fp: seq<int>, c: char, p: int, v: int, a: char)
    requires Base(T, st, fp) && Stop(st, c, p) && 0 <= v < |st|
    ensures a in NewNext(T, st, fp, c, p, v) <==>
      a in st[v].next || (a == c && SufState(T, st, fp, v))
  {
    assert v in SufStates(T, st, fp) <==> SufState(T, st, fp, v);
  }

  /** Strings with the same end positions are followed by the same characters. */
  lemma SameEndsExtends(T: seq<char>, x: seq<char>, y: seq<char>, a: char)
    requires forall e :: EndsAt(T, x, e) <==> EndsAt(T, y, e)
    ensures Extends(T, x, a) <==> Extends(T, y, a)
  {
    if Extends(T, x, a) {
      var e :| EndsAt(T, x, e) && e < |T| && T[e] == a;
      assert EndsAt(T, y, e);
    }
    if Extends(T, y, a) {
      var e :| EndsAt(T, y, e) && e < |T| && T[e] == a;
      assert EndsAt(T, x, e);
    }
  }

  /** A state has a transition on `a` after the step exactly when its strings occur in
      the new text followed by `a`. */
  lemma KeysAt(T: seq<char>, st: seq<State>, fp: seq<int>, c: char, p: int, v: int, a: char)
    requires Pre(T, st, fp, c, p) && ClassEnds(T, st, fp) && Keys(T, st, fp)
    requires 0 <= v < NewSize(st, c, p)
    ensures a in NewNextOf(T, st, fp, c, p, v) <==> Extends(T + [c], NewLong(T, st, fp, c, p, v), a)
  {
    var N := |st|;
    if v < N {
      NewKeys(T, st, fp, c, p, v, a);
      ExtendsGrow(T, c, Long(T, st, fp, v), a);
    } else if v == N {
      assert !Extends(T + [c], T + [c], a);
    } else {
      KeysClone(T, st, fp, c, p, a);
    }
  }

  /** The clone has the transitions of `q`, and `Long(p) + [c]` is followed by what
      `Long(q)` is. */
  lemma KeysClone(T: seq<char>, st: seq<State>, fp: seq<int>, c: char, p: int, a: char)
    requires Pre(T, st, fp, c, p) && ClassEnds(T, st, fp) && Keys(T, st, fp) && p != -1
    ensures a in NewNext(T, st, fp, c, p, Target(st, c, p)) <==>
      Extends(T + [c], Long(T, st, fp, p) + [c], a)
  {
    var q := Target(st, c, p);
    var Pc := Long(T, st, fp, p) + [c];
    NewKeys(T, st, fp, c, p, q, a);
    ExtendsGrow(T, c, Pc, a);
    forall e ensures EndsAt(T, Pc, e) <==> EndsAt(T, Long(T, st, fp, q), e) {
      ClassSameEnds(T, st, fp, Pc, q, e);
    }
    SameEndsExtends(T, Pc, Long(T, st, fp, q), a);
  }

  /** The transition on `a` of a state after the step leads to the class of its longest
      string extended by `a`. */
  lemma TargetsAt(T: seq<char>, st: seq<State>, fp: seq<int>, c: char, p: int, v: int, a: char)
    requires Pre(T, st, fp, c, p) && ClassEnds(T, st, fp) && Distinct(T, st, fp) && Covered(T, st, fp)
    requires Keys(T, st, fp) && Targets(T, st, fp)
    requires 0 <= v < NewSize(st, c, p) && a in NewNextOf(T, st, fp, c, p, v)
    ensures 0 <= NewNextOf(T, st, fp, c, p, v)[a] < NewSize(st, c, p)
    ensures var t := NewNextOf(T, st, fp, c, p, v)[a];
      NewMin(st, c, p, t) <= NewLen(T, st, c, p, v) + 1 <= NewLen(T, st, c, p, t) &&
      EndsAt(T + [c], NewLong(T, st, fp, c, p, v) + [a], NewEnd(T, st, fp, c, p, t))
  {
    NewNextOfInRange(T, st, fp, c, p, v, a);
    var N := |st|;
    if v < N {
      var S := SufStates(T, st, fp);
      assert v in S <==> SufState(T, st, fp, v);
      if v in S && !Has(st, c, v) && a == c {
        TargetsNew(T, st, fp, c, p, v);
      } else if !Solid(st, c, p) && v in S && st[v].len <= st[p].len && Into(st, c, Target(st, c, p), v) && a == c {
        TargetsRedirected(T, st, fp, c, p, v);
      } else {
        TargetsKeptOld(T, st, fp, c, p, v, a);
      }
    } else if v == N {
      assert false;
    } else {
      TargetsOfClone(T, st, fp, c, p, a);
    }
  }

  /** `Long(p)` occurs followed by `c`. */
  lemma PExtends(T: seq<char>, st: seq<State>, fp: seq<int>, c: char, p: int)
    requires Pre(T, st, fp, c, p) && p != -1
    ensures Extends(T, Long(T, st, fp, p), c)
  {
    var f := fp[Target(st, c, p)];
    DropLast(T, Long(T, st, fp, p), c, f);
  }

  /** A suffix state without a transition on `c` is longer than `p`, and gains one to the
      new state. */
  lemma TargetsNew(T: seq<char>, st: seq<State>, fp: seq<int>, c: char, p: int, v: int)
    requires Pre(T, st, fp, c, p) && Keys(T, st, fp)
    requires 0 <= v < |st| && SufState(T, st, fp, v) && !Has(st, c, v)
    ensures p == -1 || st[p].len < st[v].len
    ensures EndsAt(T + [c], Long(T, st, fp, v) + [c], |T| + 1)
  {
    if p != -1 && st[v].len <= st[p].len {
      PExtends(T, st, fp, c, p);
      ExtendsSuffix(T, Long(T, st, fp, v), Long(T, st, fp, p), |T|, c);
      assert false;
    }
    AppendLast(T, c, Long(T, st, fp, v));
  }

  /** A suffix state no longer than `p` with a transition on `c` into `q` reaches the
      clone with its string extended by `c`. */
  lemma TargetsRedirected(T: seq<char>, st: seq<State>, fp: seq<int>, c: char, p: int, v: int)
    requires Pre(T, st, fp, c, p) && Targets(T, st, fp) && p != -1
    requires 0 <= v < |st| && SufState(T, st, fp, v) && Into(st, c, Target(st, c, p), v)
    ensures MinLen(st, Target(st, c, p)) <= st[v].len + 1
    ensures EndsAt(T + [c], Long(T, st, fp, v) + [c], |T| + 1)
  {
    assert InClass(T, st, fp, Long(T, st, fp, v) + [c], st[v].next[c]);
    AppendLast(T, c, Long(T, st, fp, v));
  }

  /** An unchanged transition of an old state keeps its target class. */
  lemma TargetsKeptOld(T: seq<char>, st: seq<State>, fp: seq<int>, c: char, p: int, v: int, a: char)
    requires Pre(T, st, fp, c, p) && Targets(T, st, fp) && 0 <= v < |st|
    requires a in NewNext(T, st, fp, c, p, v)
    requires !(SufState(T, st, fp, v) && !Has(st, c, v) && a == c)
    requires !(!Solid(st, c, p) && SufState(T, st, fp, v) && st[v].len <= st[p].len &&
               Into(st, c, Target(st, c, p), v) && a == c)
    ensures a in st[v].next && NewNext(T, st, fp, c, p, v)[a] == st[v].next[a]
    ensures var t := st[v].next[a];
      0 <= t < |st| && NewMin(st, c, p, t) <= st[v].len + 1 <= st[t].len &&
      EndsAt(T + [c], Long(T, st, fp, v) + [a], fp[t])
  {
    assert v in SufStates(T, st, fp) <==> SufState(T, st, fp, v);
    var t := st[v].next[a];
    var w := Long(T, st, fp, v) + [a];
    assert InClass(T, st, fp, w, t);
    EndsAtGrow(T, c, w, fp[t]);
    if !Solid(st, c, p) && t == Target(st, c, p) && st[v].len <= st[p].len {
      ShortIntoQ(T, st, fp, c, p, Long(T, st, fp, v), a);
      assert false;
    }
  }

  /** A string of the class of `q` no longer than `Long(p) + [c]`, written as `x + [a]`,
      has `a == c` and `x` a suffix of `T`. */
  lemma ShortIntoQ(T: seq<char>, st: seq<State>, fp: seq<int>, c: char, p: int, x: seq<char>, a: char)
    requires Pre(T, st, fp, c, p) && p != -1
    requires EndsAt(T, x + [a], fp[Target(st, c, p)]) && |x| <= st[p].len
    ensures a == c && EndsAt(T, x, |T|)
  {
    var f := fp[Target(st, c, p)];
    var P := Long(T, st, fp, p);
    DropLast(T, x, a, f);
    DropLast(T, P, c, f);
    SuffixEndsAt(T, x, P, f - 1, |T|);
  }

  /** The transitions of the clone: those of `q`, read from `Long(p) + [c]`. */
  lemma TargetsOfClone(T: seq<char>, st: seq<State>, fp: seq<int>, c: char, p: int, a: char)
    requires Pre(T, st, fp, c, p) && ClassEnds(T, st, fp) && Distinct(T, st, fp) && Covered(T, st, fp)
    requires Targets(T, st, fp) && p != -1 && !Solid(st, c, p)
    requires a in NewNext(T, st, fp, c, p, Target(st, c, p))
    ensures var t := NewNext(T, st, fp, c, p, Target(st, c, p))[a];
      0 <= t < NewSize(st, c, p) &&
      NewMin(st, c, p, t) <= st[p].len + 2 <= NewLen(T, st, c, p, t) &&
      EndsAt(T + [c], Long(T, st, fp, p) + [c] + [a], NewEnd(T, st, fp, c, p, t))
  {
    var q := Target(st, c, p);
    var Pc := Long(T, st, fp, p) + [c];
    assert q in SufStates(T, st, fp) <==> SufState(T, st, fp, q);
    if SufState(T, st, fp, q) && !Has(st, c, q) && a == c {
      ClassSameEnds(T, st, fp, Pc, q, |T|);
      AppendLast(T, c, Pc);
    } else {
      CloneKeptTarget(T, st, fp, c, p, a);
    }
  }

  /** A transition of `q` read from the shorter `Long(p) + [c]` leads to the same class. */
  lemma CloneKeptTarget(T: seq<char>, st: seq<State>, fp: seq<int>, c: char, p: int, a: char)
    requires Pre(T, st, fp, c, p) && ClassEnds(T, st, fp) && Distinct(T, st, fp) && Covered(T, st, fp)
    requires Targets(T, st, fp) && p != -1 && !Solid(st, c, p)
    requires a in st[Target(st, c, p)].next
    ensures var t := st[Target(st, c, p)].next[a];
      0 <= t < |st| && NewMin(st, c, p, t) <= st[p].len + 2 <= st[t].len &&
      EndsAt(T + [c], Long(T, st, fp, p) + [c] + [a], fp[t])
  {
    var q := Target(st, c, p);
    var t := st[q].next[a];
    var Pc := Long(T, st, fp, p) + [c];
    var lq := Long(T, st, fp, q);
    assert InClass(T, st, fp, lq + [a], t);
    forall e ensures EndsAt(T, Pc, e) <==> EndsAt(T, lq, e) {
      ClassSameEnds(T, st, fp, Pc, q, e);
    }
    AppendSameEnds(T, Pc, lq, a);
    assert EndsAt(T, Pc + [a], fp[t]);
    SameEndsSameClass(T, st, fp, Pc + [a], lq + [a], t);
    EndsAtGrow(T, c, Pc + [a], fp[t]);
  }

  // ---------------------------------------------------------------- the whole step

  lemma LinksKept(T: seq<char>, st: seq<State>, fp: seq<int>, c: char, p: int, st': seq<State>)
    requires Pre(T, st, fp, c, p) && LinkSuffixes(T, st, fp) && World(T, st, fp, c, p, st')
    ensures LinkSuffixes(T + [c], st', NewFp(T, st, fp, c, p))
  {
    var fp' := NewFp(T, st, fp, c, p);
    forall v | 1 <= v < |st'|
      ensures EndsAt(T + [c], Long(T + [c], st', fp', st'[v].link), fp'[v])
    {
      LinkSuffixAt(T, st, fp, c, p, v);
    }
  }

  lemma ClassEndsKept(T: seq<char>, st: seq<State>, fp: seq<int>, c: char, p: int, st': seq<State>)
    requires Pre(T, st, fp, c, p) && ClassEnds(T, st, fp) && Distinct(T, st, fp)
    requires World(T, st, fp, c, p, st')
    ensures ClassEnds(T + [c], st', NewFp(T, st, fp, c, p))
  {
    var fp' := NewFp(T, st, fp, c, p);
    forall v, w, e {:trigger InClass(T + [c], st', fp', w, v), EndsAt(T + [c], w, e)}
      | 0 <= v < |st'| && InClass(T + [c], st', fp', w, v) && EndsAt(T + [c], w, e)
      ensures EndsAt(T + [c], Long(T + [c], st', fp', v), e)
    {
      ClassEndsAt(T, st, fp, c, p, v, w, e);
    }
  }

  lemma CoveredKept(T: seq<char>, st: seq<State>, fp: seq<int>, c: char, p: int, st': seq<State>)
    requires Pre(T, st, fp, c, p) && Covered(T, st, fp) && World(T, st, fp, c, p, st')
    ensures Covered(T + [c], st', NewFp(T, st, fp, c, p))
  {
    var fp' := NewFp(T, st, fp, c, p);
    forall w | Occurs(T + [c], w)
      ensures exists v :: 0 <= v < |st'| && InClass(T + [c], st', fp', w, v)
    {
      var v := CoveredAt(T, st, fp, c, p, w);
      assert InClass(T + [c], st', fp', w, v);
    }
  }

  lemma DistinctKept(T: seq<char>, st: seq<State>, fp: seq<int>, c: char, p: int, st': seq<State>)
    requires Pre(T, st, fp, c, p) && ClassEnds(T, st, fp) && Distinct(T, st, fp)
    requires World(T, st, fp, c, p, st')
    ensures Distinct(T + [c], st', NewFp(T, st, fp, c, p))
  {
    var fp' := NewFp(T, st, fp, c, p);
    forall u, v | 0 <= u < |st'| && 0 <= v < |st'| && u != v
      ensures Differ(T + [c], Long(T + [c], st', fp', u), Long(T + [c], st', fp', v))
    {
      DistinctAt(T, st, fp, c, p, u, v);
    }
  }

  lemma KeysKept(T: seq<char>, st: seq<State>, fp: seq<int>, c: char, p: int, st': seq<State>)
    requires Pre(T, st, fp, c, p) && ClassEnds(T, st, fp) && Keys(T, st, fp)
    requires World(T, st, fp, c, p, st')
    ensures Keys(T + [c], st', NewFp(T, st, fp, c, p))
  {
    var fp' := NewFp(T, st, fp, c, p);
    forall v, a | 0 <= v < |st'|
      ensures a in st'[v].next <==> Extends(T + [c], Long(T + [c], st', fp', v), a)
    {
      KeysAt(T, st, fp, c, p, v, a);
    }
  }

  lemma TargetsKept(T: seq<char>, st: seq<State>, fp: seq<int>, c: char, p: int, st': seq<State>)
    requires Pre(T, st, fp, c, p) && ClassEnds(T, st, fp) && Distinct(T, st, fp) && Covered(T, st, fp)
    requires Keys(T, st, fp) && Targets(T, st, fp) && World(T, st, fp, c, p, st')
    ensures Targets(T + [c], st', NewFp(T, st, fp, c, p))
  {
    var fp' := NewFp(T, st, fp, c, p);
    forall v, a | 0 <= v < |st'| && a in st'[v].next
      ensures InClass(T + [c], st', fp', Long(T + [c], st', fp', v) + [a], st'[v].next[a])
    {
      TargetsAt(T, st, fp, c, p, v, a);
    }
  }

  /** `extend(c)` turns the suffix automaton of `T` into the suffix automaton of
      `T + [c]`, whose whole text is the class of the new state. */
  lemma ExtendKeeps(T: seq<char>, st: seq<State>, fp: seq<int>, last: int, c: char)
    returns (fp': seq<int>)
    requires Automaton(T, st, fp, last)
    ensures Automaton(T + [c], Extended(st, last, c).0, fp', Extended(st, last, c).1)
  {
    var p := ExtendedIsGrown(T, st, fp, last, c);
    PreOf(T, st, fp, last, c, p);
    var st' := Extended(st, last, c).0;
    WorldOf(T, st, fp, c, p, st');
    fp' := NewFp(T, st, fp, c, p);
    LinksKept(T, st, fp, c, p, st');
    ClassEndsKept(T, st, fp, c, p, st');
    CoveredKept(T, st, fp, c, p, st');
    DistinctKept(T, st, fp, c, p, st');
    KeysKept(T, st, fp, c, p, st');
    TargetsKept(T, st, fp, c, p, st');
    assert st'[|st|].len == |T| + 1 && fp'[|st|] == |T| + 1;
  }
}
