/**
 * The data shaping around the next-term prediction: the training window
 * built from a student's report history and the clamp of the result. The
 * least-squares fit itself is a parameter.
 */
module Predictor {
  import opened Wrappers
  import opened Tables

  /** No prediction is made from fewer reports than this. */
  const MinHistory: nat := 3

  /**
   * `LinearRegression().fit(X, y)` followed by `predict([latest])[0]`: from the
   * training inputs, the targets and the latest scores, a predicted percentage,
   * or None when the fit or the prediction raises.
   */
  type Regression = (seq<seq<int>>, seq<real>, seq<int>) -> Option<real>

  /** The stored REAL percentage of a report. */
  function PercentOf(x: Report): real
  {
    x.data.percentage as real / 100.0
  }

  /** The six score columns of every row. */
  function ScoreRows(h: seq<Report>): (r: seq<seq<int>>)
    ensures |r| == |h|
  {
    seq(|h|, i requires 0 <= i < |h| => h[i].data.marks)
  }

  /** The percentage column. */
  function PercentColumn(h: seq<Report>): (r: seq<real>)
    ensures |r| == |h|
  {
    seq(|h|, i requires 0 <= i < |h| => PercentOf(h[i]))
  }

  /** `values[:-1]`: the scores of every term but the last. */
  function Inputs(h: seq<Report>): (r: seq<seq<int>>)
    requires |h| >= 1
    ensures |r| == |h| - 1
    ensures forall i :: 0 <= i < |r| ==> r[i] == h[i].data.marks
  {
    ScoreRows(h)[..|h| - 1]
  }

  /** `values[1:]`: the percentages of every term but the first. */
  function Targets(h: seq<Report>): (r: seq<real>)
    requires |h| >= 1
    ensures |r| == |h| - 1
    ensures forall i :: 0 <= i < |r| ==> r[i] == PercentOf(h[i + 1])
  {
    PercentColumn(h)[1..]
  }

  /** Training pair i maps the scores of term i to the percentage of term i + 1. */
  lemma TrainingPairs(h: seq<Report>, i: int)
    requires 0 <= i < |h| - 1
    ensures |Inputs(h)| == |Targets(h)| == |h| - 1
    ensures Inputs(h)[i] == h[i].data.marks
    ensures Targets(h)[i] == PercentOf(h[i + 1])
  {
  }

  /** `max(0, min(100, p))` */
  function Clamp(p: real): (r: real)
    ensures 0.0 <= r <= 100.0
    ensures 0.0 <= p <= 100.0 ==> r == p
    ensures p < 0.0 ==> r == 0.0
    ensures p > 100.0 ==> r == 100.0
  {
    var capped := if p < 100.0 then p else 100.0;
    if capped > 0.0 then capped else 0.0
  }

  /**
   * `predict_student_performance` on a history ordered by timestamp: None for
   * fewer than three reports or when the fit raises, otherwise the clamped
   * prediction from the latest scores.
   */
  function Predict(h: seq<Report>, fit: Regression): (r: Option<real>)
    ensures |h| < MinHistory ==> r == None
    ensures r.Some? ==> 0.0 <= r.value <= 100.0
  {
    if |h| < MinHistory then None
    else
      var x := Inputs(h);
      var y := Targets(h);
      if |x| == |y| then
        match fit(x, y, h[|h| - 1].data.marks)
        case None => None
        case Some(p) => Some(Clamp(p))
      else None
  }

  /** With three or more reports the length check always passes and the fit decides. */
  lemma PredictUsesWindow(h: seq<Report>, fit: Regression, p: real)
    requires |h| >= MinHistory
    requires fit(Inputs(h), Targets(h), h[|h| - 1].data.marks) == Some(p)
    ensures Predict(h, fit) == Some(Clamp(p))
  {
  }
}
