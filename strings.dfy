/** Strings as sequences of characters, compared character by character with a proper
    prefix before any extension of it. A character here is a Unicode scalar value, while a
    Java `char` is a UTF-16 code unit: the two agree, in length and in order, on text of
    the Basic Multilingual Plane without surrogates, and only there is this the order of
    `String.compareTo`. */
module Strings {

  /** The length of the longest common prefix of `a` and `b`. */
  function Lcp(a: string, b: string): (m: nat)
    ensures m <= |a| && m <= |b|
    ensures a[..m] == b[..m]
    ensures m < |a| && m < |b| ==> a[m] != b[m]
  {
    if 0 < |a| && 0 < |b| && a[0] == b[0] then
      var m := 1 + Lcp(a[1..], b[1..]);
      assert a[..m] == [a[0]] + a[1..][..m - 1];
      assert b[..m] == [b[0]] + b[1..][..m - 1];
      m
    else 0
  }

  /** The three facts of `Lcp`'s contract pin the length down. */
  lemma LcpUnique(a: string, b: string, m: nat)
    requires m <= |a| && m <= |b| && a[..m] == b[..m]
    requires m < |a| && m < |b| ==> a[m] != b[m]
    ensures Lcp(a, b) == m
  {
    var l := Lcp(a, b);
    assert forall k :: 0 <= k < m ==> a[k] == a[..m][k] == b[..m][k] == b[k];
    assert forall k :: 0 <= k < l ==> a[k] == a[..l][k] == b[..l][k] == b[k];
  }

  lemma LcpSymmetric(a: string, b: string)
    ensures Lcp(a, b) == Lcp(b, a)
  {
    LcpUnique(b, a, Lcp(a, b));
  }

  lemma LcpSelf(a: string)
    ensures Lcp(a, a) == |a|
  {
    LcpUnique(a, a, |a|);
  }

  /** Strict lexicographic order: `a` is a proper prefix of `b`, or at the first position
      where they differ `a` has the smaller character. */
  predicate LexLess(a: string, b: string)
  {
    var m := Lcp(a, b);
    m < |b| && (m == |a| || a[m] < b[m])
  }

  predicate LexLessEq(a: string, b: string)
  {
    a == b || LexLess(a, b)
  }

  /** `a` comes before `b` when the two agree on `m` characters after which `a` ends or
      has the smaller character; `m` is then their common prefix. */
  lemma LexLessAt(a: string, b: string, m: nat)
    requires m <= |a| && m < |b| && a[..m] == b[..m] && (m == |a| || a[m] < b[m])
    ensures Lcp(a, b) == m && LexLess(a, b)
  {
    LcpUnique(a, b, m);
  }

  lemma LexLessIrreflexive(a: string)
    ensures !LexLess(a, a)
  {
    LcpSelf(a);
  }

  /** Two different strings are ordered one way and not the other. */
  lemma LexLessTotal(a: string, b: string)
    ensures a != b <==> (LexLess(a, b) || LexLess(b, a))
    ensures !(LexLess(a, b) && LexLess(b, a))
  {
    LcpSymmetric(a, b);
    var m := Lcp(a, b);
    if m == |a| && m == |b| {
      assert a == a[..m] && b == b[..m];
    }
    if a == b {
      LexLessIrreflexive(a);
    }
  }

  lemma LexLessTransitive(a: string, b: string, c: string)
    requires LexLess(a, b) && LexLess(b, c)
    ensures LexLess(a, c)
  {
    var ab, bc := Lcp(a, b), Lcp(b, c);
    var m := if ab < bc then ab else bc;
    assert a[..m] == c[..m] by {
      assert a[..m] == a[..ab][..m] && b[..m] == b[..ab][..m];
      assert b[..m] == b[..bc][..m] && c[..m] == c[..bc][..m];
    }
    if ab < bc {
      assert b[ab] == b[..bc][ab] == c[..bc][ab] == c[ab];
      LcpUnique(a, c, ab);
    } else if bc < ab {
      assert a[bc] == a[..ab][bc] == b[..ab][bc] == b[bc];
      LcpUnique(a, c, bc);
    } else {
      LcpUnique(a, c, m);
    }
  }

  /** In a lexicographically sorted list the common prefix of two strings is shared by
      everything in between: when `a <= b < c`, `c` has at least as much in common with
      `b` as with `a`. */
  lemma LcpSandwich(a: string, b: string, c: string)
    requires LexLessEq(a, b) && LexLess(b, c)
    ensures Lcp(a, c) <= Lcp(b, c)
  {
    if a != b {
      var ac, bc, ab := Lcp(a, c), Lcp(b, c), Lcp(a, b);
      if bc < ac {
        // b leaves c at bc, where a still follows c, so b would come before a
        assert a[bc] == a[..ac][bc] == c[..ac][bc] == c[bc];
        assert a[..bc] == b[..bc] by {
          assert a[..bc] == a[..ac][..bc] && c[..bc] == c[..ac][..bc];
          assert b[..bc] == b[..bc] && c[..bc] == c[..bc];
        }
        if bc == |b| {
          LcpUnique(b, a, bc);
          LexLessTotal(a, b);
        } else {
          assert b[bc] < c[bc];
          LcpUnique(b, a, bc);
          LexLessTotal(a, b);
        }
      }
    }
  }

  /** Dropping one equal leading character: the common prefix shrinks by one and the
      order is kept. */
  lemma LcpDropFirst(a: string, b: string)
    requires Lcp(a, b) >= 1
    ensures Lcp(a[1..], b[1..]) == Lcp(a, b) - 1
    ensures LexLess(a, b) ==> LexLess(a[1..], b[1..])
  {
  }

  /** Every non-empty contiguous piece of `s`: the strings whose number the two indexes
      count. */
  ghost function NonEmptySubstrings(s: string): set<string>
  {
    set i, j | 0 <= i < j <= |s| :: s[i..j]
  }

  ghost predicate IsSubstring(w: string, s: string)
  {
    exists i, j :: 0 <= i <= j <= |s| && s[i..j] == w
  }
}
