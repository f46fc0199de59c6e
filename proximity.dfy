/** Proximity feedback: the "temperature" shown to the seeker for a search distance. */
module Proximity {
  import opened PathOracle

  datatype Feedback = Found | Burning | Hot | Warm | Cool | Cold

  /** `get_feedback`: a chain of comparisons, first match wins; an infinite distance fails them all. */
  function GetFeedback(distance: Distance): (r: Feedback)
    ensures r == Found <==> distance == Finite(0)
    ensures r == Burning <==> distance.Finite? && 1 <= distance.steps <= 2
    ensures r == Hot <==> distance.Finite? && 3 <= distance.steps <= 4
    ensures r == Warm <==> distance.Finite? && 5 <= distance.steps <= 6
    ensures r == Cool <==> distance.Finite? && 7 <= distance.steps <= 10
    ensures r == Cold <==> distance.Infinite? || distance.steps > 10
  {
    match distance
    case Infinite => Cold
    case Finite(d) =>
      if d == 0 then Found
      else if d <= 2 then Burning
      else if d <= 4 then Hot
      else if d <= 6 then Warm
      else if d <= 10 then Cool
      else Cold
  }

  /** How hot a bucket is: Cold is 0, Found is 5. */
  function Heat(f: Feedback): nat {
    match f
    case Cold => 0
    case Cool => 1
    case Warm => 2
    case Hot => 3
    case Burning => 4
    case Found => 5
  }

  /** The order on distances, with the infinite distance above every finite one. */
  predicate AtMost(a: Distance, b: Distance) {
    b.Infinite? || (a.Finite? && a.steps <= b.steps)
  }

  /** A larger distance never gives a hotter bucket. */
  lemma FartherIsNeverHotter(a: Distance, b: Distance)
    requires AtMost(a, b)
    ensures Heat(GetFeedback(a)) >= Heat(GetFeedback(b))
  {
  }
}
