// The letter grade shown with a result (frontend/src/components/Results.tsx:9-17).
// The percentage text is read back as a number; here it is a whole number of
// hundredths, so 90 percent is 9000.

module Results {
  import Grading

  datatype Grade = APlus | A | B | C | D

  /** What `getGrade` returns: the grade and the two display colours. */
  datatype GradeInfo = GradeInfo(grade: Grade, color: string, bg: string)

  /** Grades in increasing order of merit. */
  function Rank(g: Grade): nat {
    match g
    case D => 0
    case C => 1
    case B => 2
    case A => 3
    case APlus => 4
  }

  /** `parseFloat(result.percentage)`, in hundredths: the text "0" reads as 0. */
  function PercentValue(p: Grading.Percentage): (v: int)
    ensures p.ZeroText? ==> v == 0
    ensures p.TwoDecimals? ==> v == p.hundredths
  {
    match p
    case ZeroText => 0
    case TwoDecimals(h) => h
  }

  /** `getGrade`: the guarded returns, top-down, first match wins. */
  function GetGrade(percentage: int): (info: GradeInfo)
    ensures info.grade == APlus <==> percentage >= 9000
    ensures info.grade == A <==> 8000 <= percentage < 9000
    ensures info.grade == B <==> 7000 <= percentage < 8000
    ensures info.grade == C <==> 6000 <= percentage < 7000
    ensures info.grade == D <==> percentage < 6000
  {
    if percentage >= 9000 then GradeInfo(APlus, "#059669", "#d1fae5")
    else if percentage >= 8000 then GradeInfo(A, "#059669", "#d1fae5")
    else if percentage >= 7000 then GradeInfo(B, "#2563eb", "#dbeafe")
    else if percentage >= 6000 then GradeInfo(C, "#d97706", "#fef3c7")
    else GradeInfo(D, "#dc2626", "#fee2e2")
  }

  /** A higher percentage never gets a lower grade. */
  lemma GradeMonotone(x: int, y: int)
    requires x <= y
    ensures Rank(GetGrade(x).grade) <= Rank(GetGrade(y).grade)
  {
  }

  /** Full marks earn A+; a submission that earned nothing, or in which no
      answer matched a question, earns D. */
  lemma GradeOfExtremes(score: int, total: int)
    ensures total > 0 && score == total ==>
      GetGrade(PercentValue(Grading.PercentageOf(score, total))).grade == APlus
    ensures score == 0 || total <= 0 ==>
      GetGrade(PercentValue(Grading.PercentageOf(score, total))).grade == D
  {
    if total > 0 {
      Grading.PercentageExtremes(score, total);
    }
  }
}
