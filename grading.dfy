/**
 * Marks arithmetic of the "Enter Marks" form: six subject marks, their total,
 * the percentage rounded to two places and the grade band it falls in.
 */
module Grading {

  /** The subjects of a report card, in the order of the form and the `reports` columns. */
  const Subjects: seq<string> := ["Tamil", "English", "Maths", "Science", "Social", "Computer"]

  /** Each mark is limited to 0..100 by its input widget. */
  predicate ValidMarks(marks: seq<int>)
  {
    |marks| == |Subjects| && forall i :: 0 <= i < |marks| ==> 0 <= marks[i] <= 100
  }

  /**
   * `sum(marks.values())`. Python's `sum` adds from the left; the recursive
   * definition adds from the right, and the two agree.
   */
  function Total(marks: seq<int>): (t: int)
    ensures marks == [] ==> t == 0
    ensures marks != [] ==> t == Total(marks[..|marks| - 1]) + marks[|marks| - 1]
  {
    if marks == [] then 0
    else
      assert marks[1..] != [] ==> marks[1..][..|marks[1..]| - 1] == marks[..|marks| - 1][1..];
      marks[0] + Total(marks[1..])
  }

  lemma {:induction false} TotalBounds(marks: seq<int>)
    requires forall i :: 0 <= i < |marks| ==> 0 <= marks[i] <= 100
    ensures 0 <= Total(marks) <= 100 * |marks|
  {
    if marks != [] {
      TotalBounds(marks[1..]);
    }
  }

  /** With every mark in 0..100 the total lies in 0..600. */
  lemma ValidTotal(marks: seq<int>)
    requires ValidMarks(marks)
    ensures 0 <= Total(marks) <= 600
  {
    TotalBounds(marks);
  }

  /**
   * `round(total / 600 * 100, 2)` as a whole number of hundredths of a percent.
   * The exact value is total/6 percent, i.e. 50*total/3 hundredths; its
   * fractional part is 0, 1/3 or 2/3, so rounding never meets a tie and the
   * result is the unique nearest hundredth.
   */
  function Percentage(total: int): (h: int)
    ensures -1 <= 3 * h - 50 * total <= 1
    ensures 0 <= total <= 600 ==> 0 <= h <= 10000
  {
    (50 * total + 1) / 3
  }

  /** No other hundredth is as close to the exact percentage. */
  lemma PercentageNearest(total: int, k: int)
    requires k != Percentage(total)
    ensures 3 * k - 50 * total > 1 || 3 * k - 50 * total < -1
  {
  }

  /** A larger total never gives a smaller percentage. */
  lemma PercentageMonotone(t1: int, t2: int)
    requires t1 <= t2
    ensures Percentage(t1) <= Percentage(t2)
  {
  }

  /** The six grade bands, best first. */
  datatype Grade = O | A | B | C | D | F
  {
    /** The text stored in the `grade` column. */
    function Label(): string
    {
      match this
      case O => "O (Outstanding)"
      case A => "A (Very Good)"
      case B => "B (Good)"
      case C => "C (Average)"
      case D => "D (Needs Improvement)"
      case F => "F (Fail)"
    }

    /** Position of the band from F (0) up to O (5). */
    function Rank(): nat
    {
      match this
      case F => 0
      case D => 1
      case C => 2
      case B => 3
      case A => 4
      case O => 5
    }
  }

  /** The band of a percentage given in hundredths; each band is a half-open interval. */
  function GradeOf(h: int): (g: Grade)
    ensures g == O <==> 9000 <= h
    ensures g == A <==> 7500 <= h < 9000
    ensures g == B <==> 6000 <= h < 7500
    ensures g == C <==> 5000 <= h < 6000
    ensures g == D <==> 4000 <= h < 5000
    ensures g == F <==> h < 4000
  {
    if h >= 9000 then O
    else if h >= 7500 then A
    else if h >= 6000 then B
    else if h >= 5000 then C
    else if h >= 4000 then D
    else F
  }

  /** A higher percentage never gives a lower band. */
  lemma GradeMonotone(h1: int, h2: int)
    requires h1 <= h2
    ensures GradeOf(h1).Rank() <= GradeOf(h2).Rank()
  {
  }

  /** Distinct bands are stored as distinct labels. */
  lemma LabelInjective(g1: Grade, g2: Grade)
    requires g1.Label() == g2.Label()
    ensures g1 == g2
  {
    assert g1.Label()[0] == g2.Label()[0];
  }

  /** The bands read off the integer total: thresholds 540, 450, 360, 300 and 240. */
  function TotalBand(total: int): Grade
  {
    if total >= 540 then O
    else if total >= 450 then A
    else if total >= 360 then B
    else if total >= 300 then C
    else if total >= 240 then D
    else F
  }

  /** Rounding to hundredths never moves an integer total across a band threshold. */
  lemma GradeByTotal(total: int)
    ensures GradeOf(Percentage(total)) == TotalBand(total)
  {
    var h := Percentage(total);
    assert -1 <= 3 * h - 50 * total <= 1;
  }
}
