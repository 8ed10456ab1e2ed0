/** The score colouring shared by the result tabs: a score is clamped to
    [0, 100] for display, and coloured green from 80, yellow from 60, red
    below.  Scores are whole numbers here. */
module ScoreBuckets {

  datatype Band = Green | Yellow | Red

  const GreenFrom: int := 80
  const YellowFrom: int := 60

  /** `Math.max(0, Math.min(100, score))`, the `clampScore` of both card
      views and the width of their progress bars in percent. */
  function Clamp(score: int): (r: int)
    ensures 0 <= r <= 100
    ensures 0 <= score <= 100 ==> r == score
    ensures score < 0 ==> r == 0
    ensures score > 100 ==> r == 100
  {
    if score < 0 then 0 else if score > 100 then 100 else score
  }

  /** The thresholds applied to a score as it is. */
  function BandOf(score: int): (b: Band)
    ensures b == Green <==> score >= GreenFrom
    ensures b == Yellow <==> YellowFrom <= score < GreenFrom
    ensures b == Red <==> score < YellowFrom
  {
    if score >= GreenFrom then Green else if score >= YellowFrom then Yellow else Red
  }

  /** The thresholds applied to the clamped score, as the card views do. */
  function ClampedBand(score: int): Band
  {
    BandOf(Clamp(score))
  }

  /** Bands ordered from worst to best. */
  function Rank(b: Band): (r: int)
    ensures 0 <= r <= 2
  {
    match b
    case Red => 0
    case Yellow => 1
    case Green => 2
  }

  /** Clamping never moves a score into another band, so the views that
      clamp and the table that does not colour every score alike. */
  lemma ClampKeepsBand(score: int)
    ensures ClampedBand(score) == BandOf(score)
  {
  }

  /** A higher score never gets a worse colour. */
  lemma BandMonotone(s1: int, s2: int)
    requires s1 <= s2
    ensures Rank(BandOf(s1)) <= Rank(BandOf(s2))
  {
  }

  /** Clamping is idempotent and only changes scores outside [0, 100]. */
  lemma ClampIdempotent(score: int)
    ensures Clamp(Clamp(score)) == Clamp(score)
    ensures Clamp(score) == score <==> 0 <= score <= 100
  {
  }
}
