/** `DeepDiveTab`: a single accordion over the opportunity list, and the
    clamped score colouring. */
module DeepDiveTab {
  import opened Base
  import ScoreBuckets

  /** `expandedIndex`: the open opportunity, `None` for `null`; it starts on
      the first one. */
  const InitialExpanded: Option<int> := Some(0)

  /** `toggleOpportunity(index)` */
  function ToggleOpportunity(expanded: Option<int>, index: int): (r: Option<int>)
    // the clicked item is open afterwards exactly when it was closed before
    ensures r == Some(index) <==> expanded != Some(index)
    // and nothing else is open
    ensures forall j :: j != index ==> r != Some(j)
  {
    if expanded == Some(index) then None else Some(index)
  }

  /** Clicking the open item closes it, clicking it again reopens it;
      clicking another item moves the opening there. */
  lemma ToggleSequences(expanded: Option<int>, i: int, j: int)
    ensures ToggleOpportunity(ToggleOpportunity(Some(i), i), i) == Some(i)
    ensures i != j ==> ToggleOpportunity(ToggleOpportunity(expanded, i), j) == Some(j)
  {
  }

  /** The first opportunity is the one open before any click. */
  lemma InitiallyFirstOpen(i: int)
    ensures InitialExpanded == Some(i) <==> i == 0
  {
  }

  /** `getScoreColor` */
  function ScoreColor(score: int): string
  {
    match ScoreBuckets.ClampedBand(score)
    case Green => "text-green-600 bg-green-100 border-green-300"
    case Yellow => "text-yellow-600 bg-yellow-100 border-yellow-300"
    case Red => "text-red-600 bg-red-100 border-red-300"
  }

  /** `getProgressColor` */
  function ProgressColor(score: int): string
  {
    match ScoreBuckets.ClampedBand(score)
    case Green => "bg-green-500"
    case Yellow => "bg-yellow-500"
    case Red => "bg-red-500"
  }

  /** Badge and bar colours use the same thresholds on the same clamped
      score: both are green exactly from 80, red exactly below 60. */
  lemma ColoursShareThresholds(score: int)
    ensures ScoreColor(score) == "text-green-600 bg-green-100 border-green-300" <==> score >= 80
    ensures ProgressColor(score) == "bg-green-500" <==> score >= 80
    ensures ScoreColor(score) == "text-red-600 bg-red-100 border-red-300" <==> score < 60
    ensures ProgressColor(score) == "bg-red-500" <==> score < 60
  {
    ScoreBuckets.ClampKeepsBand(score);
    assert "text-green-600 bg-green-100 border-green-300"[5] != "text-yellow-600 bg-yellow-100 border-yellow-300"[5];
    assert "text-green-600 bg-green-100 border-green-300"[5] != "text-red-600 bg-red-100 border-red-300"[5];
    assert "text-red-600 bg-red-100 border-red-300"[5] != "text-yellow-600 bg-yellow-100 border-yellow-300"[5];
    assert "bg-green-500"[3] != "bg-yellow-500"[3] && "bg-green-500"[3] != "bg-red-500"[3];
    assert "bg-red-500"[3] != "bg-yellow-500"[3];
  }
}
