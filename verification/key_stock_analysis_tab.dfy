/** `KeyStockAnalysisTab`: one accordion per stock card, each remembering
    which of its criteria is open, and the clamped score colouring. */
module KeyStockAnalysisTab {
  import opened Base
  import ScoreBuckets

  /** `expandedStates`: card index -> open criterion, `None` for `null`.
      A card missing from the map has nothing open. */
  type Accordion = map<int, Option<int>>

  /** `Object.fromEntries(analysisCards.map((_, idx) => [idx, 0]))` */
  function InitialAccordion(cards: nat): (m: Accordion)
    ensures forall i :: i in m <==> 0 <= i < cards
    ensures forall i :: i in m ==> m[i] == Some(0)
  {
    if cards == 0 then map[] else InitialAccordion(cards - 1)[cards - 1 := Some(0)]
  }

  /** `expandedStates[cardIndex] === criterionIndex` */
  predicate IsExpanded(m: Accordion, card: int, criterion: int)
  {
    card in m && m[card] == Some(criterion)
  }

  /** `toggleCriterion(cardIndex, criterionIndex)` */
  function ToggleCriterion(m: Accordion, card: int, criterion: int): (r: Accordion)
    // the clicked criterion flips
    ensures IsExpanded(r, card, criterion) <==> !IsExpanded(m, card, criterion)
    // no other criterion of that card is open afterwards
    ensures forall c :: c != criterion ==> !IsExpanded(r, card, c)
    // every other card is untouched
    ensures r.Keys == m.Keys + {card}
    ensures forall k :: k in m && k != card ==> r[k] == m[k]
  {
    m[card := if IsExpanded(m, card, criterion) then None else Some(criterion)]
  }

  /** Initially every card shows its first criterion and only that one. */
  lemma InitialShowsFirstCriterion(cards: nat, card: int, criterion: int)
    requires 0 <= card < cards
    ensures IsExpanded(InitialAccordion(cards), card, criterion) <==> criterion == 0
  {
  }

  /** A card never has two criteria open. */
  lemma AtMostOneOpen(m: Accordion, card: int, c1: int, c2: int)
    requires IsExpanded(m, card, c1) && IsExpanded(m, card, c2)
    ensures c1 == c2
  {
  }

  /** Clicking an open criterion twice reopens it; clicking a closed one
      twice leaves the card with nothing open. */
  lemma ToggleTwice(m: Accordion, card: int, criterion: int)
    ensures IsExpanded(m, card, criterion) ==> ToggleCriterion(ToggleCriterion(m, card, criterion), card, criterion) == m
    ensures !IsExpanded(m, card, criterion) ==>
      ToggleCriterion(ToggleCriterion(m, card, criterion), card, criterion) == m[card := None]
  {
  }

  /** Clicks on different cards commute. */
  lemma TogglesOnDifferentCardsCommute(m: Accordion, card1: int, c1: int, card2: int, c2: int)
    requires card1 != card2
    ensures ToggleCriterion(ToggleCriterion(m, card1, c1), card2, c2)
      == ToggleCriterion(ToggleCriterion(m, card2, c2), card1, c1)
  {
  }

  /** `getScoreColor` */
  function ScoreColor(score: int): string
  {
    match ScoreBuckets.ClampedBand(score)
    case Green => "text-green-600 bg-green-100 border-green-300"
    case Yellow => "text-yellow-600 bg-yellow-100 border-yellow-300"
    case Red => "text-red-600 bg-red-100 border-red-300"
  }

  /** `getProgressColor` */
  function ProgressColor(score: int): string
  {
    match ScoreBuckets.ClampedBand(score)
    case Green => "bg-green-500"
    case Yellow => "bg-yellow-500"
    case Red => "bg-red-500"
  }

  /** The badge and the progress bar always agree: two scores share a badge
      colour exactly when they share a bar colour, and both follow the
      80/60 thresholds of the clamped score. */
  lemma BadgeAndProgressAgree(s1: int, s2: int)
    ensures ScoreColor(s1) == ScoreColor(s2) <==> ProgressColor(s1) == ProgressColor(s2)
    ensures ScoreColor(s1) == ScoreColor(s2) <==> ScoreBuckets.ClampedBand(s1) == ScoreBuckets.ClampedBand(s2)
  {
    var g, y, r := "text-green-600 bg-green-100 border-green-300", "text-yellow-600 bg-yellow-100 border-yellow-300",
      "text-red-600 bg-red-100 border-red-300";
    assert g[5] != y[5] && g[5] != r[5] && y[5] != r[5];
    var pg, py, pr := "bg-green-500", "bg-yellow-500", "bg-red-500";
    assert pg[3] != py[3] && pg[3] != pr[3] && py[3] != pr[3];
  }
}
