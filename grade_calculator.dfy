/** How the grade calculator turns a numerical score into a letter grade. */
module GradeCalculator {
  import opened Outcomes

  /** The if/else-if chain exactly as the program writes it: only the 'A' band has an
      upper bound, so every score above 100 falls through to 'B'. A negative score
      takes the invalid path, which yields no grade. */
  function GradeAsWritten(score: int): (grade: Option<char>)
    ensures grade.None? <==> score < 0
  {
    if 90 <= score <= 100 then Some('A')
    else if score >= 80 then Some('B')
    else if score >= 70 then Some('C')
    else if score >= 60 then Some('D')
    else if score >= 0 then Some('F')
    else None
  }

  /** A score above 100 is accepted and graded 'B', although the program asks for a
      score between 0 and 100 and calls anything outside that range invalid. */
  lemma AsWrittenGradesAbove100(score: int)
    requires score > 100
    ensures GradeAsWritten(score) == Some('B')
  {
  }

  /** The rule as the prompt and the error message describe it: only scores in 0..100
      are graded; every other score is invalid. */
  function Grade(score: int): (grade: Option<char>)
    ensures grade.Some? <==> 0 <= score <= 100
    ensures grade.Some? ==> grade == GradeAsWritten(score)
  {
    if score > 100 then None else GradeAsWritten(score)
  }

  /** How good a letter is: 'A' is best (4), 'F' worst (0). */
  function Merit(letter: char): int
  {
    match letter
    case 'A' => 4
    case 'B' => 3
    case 'C' => 2
    case 'D' => 1
    case _ => 0
  }

  /** The bands, each both ways: a grade is a given letter exactly when the score lies in
      that letter's band. */
  lemma GradeBands(score: int)
    ensures Grade(score) == Some('A') <==> 90 <= score <= 100
    ensures Grade(score) == Some('B') <==> 80 <= score <= 89
    ensures Grade(score) == Some('C') <==> 70 <= score <= 79
    ensures Grade(score) == Some('D') <==> 60 <= score <= 69
    ensures Grade(score) == Some('F') <==> 0 <= score <= 59
    ensures Grade(score) == None <==> score < 0 || score > 100
  {
  }

  /** On the valid range a higher score never earns a worse letter. */
  lemma GradeMonotone(low: int, high: int)
    requires 0 <= low <= high <= 100
    ensures Merit(Grade(low).value) <= Merit(Grade(high).value)
  {
  }

  /** The program as written does the same on scores up to 100 but is not monotone
      beyond: 100 earns 'A' and 101 only 'B'. */
  lemma AsWrittenNotMonotone()
    ensures Merit(GradeAsWritten(100).value) > Merit(GradeAsWritten(101).value)
  {
  }
}
