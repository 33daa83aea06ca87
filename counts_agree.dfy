/** The two counts of different non-empty substrings in the repository, one from the
    suffix and LCP arrays (Algorithms/SuffixArrayLCP.java) and one from the suffix
    automaton (Algorithms/SuffixAutomation.java), always agree. */
module CountsAgree {
  import opened Strings
  import SuffixArrayLcp
  import SuffixAutomation

  /** Counts the different non-empty substrings of `s` both ways. */
  method CountBothWays(s: string) returns (bySuffixArray: int, byAutomaton: int)
    ensures bySuffixArray == byAutomaton == |NonEmptySubstrings(s)|
  {
    bySuffixArray := SuffixArrayLcp.CountDistinctSubstrings(s);
    var sam := new SuffixAutomation.SuffixAutomation(s);
    byAutomaton := sam.DistinctSubstringsCount();
  }
}
