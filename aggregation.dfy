/**
 * `calculate_overall_score`: the guard against empty or mismatched score
 * lists and the per-review radicand `food² × service` whose square roots
 * it averages. The square roots, the division and the rounding are
 * floating point; the model keeps the radicands exactly and states the
 * score's range over the reals with each square root given by its defining
 * property.
 */
module Aggregation {
  import opened Wrappers

  /** The largest radicand for scores in 1..5, `5² × 5`; `sqrt(125)` normalises the score. */
  const MaxRadicand: int := 125

  /** The number under the square root for one review. */
  function Radicand(food: int, service: int): int {
    food * food * service
  }

  /** The guard: either list empty, or their lengths differ. */
  predicate Degenerate(food: seq<int>, service: seq<int>) {
    |food| == 0 || |service| == 0 || |food| != |service|
  }

  /**
   * What `calculate_overall_score` produces for one restaurant:
   * `Fallback` is the score `0.0`;
   * `DomainError(i)` is the `ValueError` `math.sqrt` raises for the negative
   * radicand of review `i`;
   * `Terms(rs)` is `round((Σ sqrt(rs[i]) / (|rs| * sqrt(125))) * 10, 3)`,
   * provided every radicand converts to a double; a radicand of magnitude
   * about 2^1024 or more makes `math.sqrt` raise `OverflowError` instead,
   * which the model does not distinguish.
   */
  datatype Outcome = Fallback | DomainError(at: nat) | Terms(radicands: seq<int>)

  /** The radicands of the paired scores, in order. */
  function Radicands(food: seq<int>, service: seq<int>): seq<int>
    requires |food| == |service|
  {
    seq(|food|, i requires 0 <= i < |food| => Radicand(food[i], service[i]))
  }

  /** The first review whose radicand is negative, if any. */
  function FirstNegative(rads: seq<int>): (r: Option<nat>)
    ensures r.Some? ==> r.value < |rads| && rads[r.value] < 0 && forall j :: 0 <= j < r.value ==> rads[j] >= 0
    ensures r.None? ==> forall j :: 0 <= j < |rads| ==> rads[j] >= 0
  {
    if rads == [] then None
    else
      match FirstNegative(rads[..|rads| - 1])
      case Some(k) => Some(k)
      case None => if rads[|rads| - 1] < 0 then Some(|rads| - 1) else None
  }

  function OutcomeOf(food: seq<int>, service: seq<int>): Outcome {
    if Degenerate(food, service) then Fallback
    else
      var rads := Radicands(food, service);
      match FirstNegative(rads)
      case Some(k) => DomainError(k)
      case None => Terms(rads)
  }

  /**
   * `calculate_overall_score(name, food, service)`: a one-entry dict keyed by
   * `name`; the fallback on degenerate input; otherwise the radicands of the
   * paired scores, in order, one per review, or the first review whose
   * radicand has no real square root.
   */
  method CalculateOverallScore(name: string, food: seq<int>, service: seq<int>) returns (r: map<string, Outcome>)
    ensures r.Keys == {name}
    ensures r[name] == OutcomeOf(food, service)
    ensures r[name] == Fallback <==> Degenerate(food, service)
    ensures r[name].Terms? ==>
      && |r[name].radicands| == |food| == |service|
      && forall i :: 0 <= i < |food| ==> r[name].radicands[i] == food[i] * food[i] * service[i]
    ensures r[name].DomainError? ==>
      && r[name].at < |food| == |service|
      && food[r[name].at] * food[r[name].at] * service[r[name].at] < 0
  {
    if |food| == 0 || |service| == 0 || |food| != |service| {
      return map[name := Fallback];
    }
    var radicands: seq<int> := [];
    for i := 0 to |food|
      invariant radicands == Radicands(food, service)[..i]
      invariant forall j :: 0 <= j < i ==> radicands[j] >= 0
    {
      var radicand := food[i] * food[i] * service[i];
      if radicand < 0 {
        assert FirstNegative(Radicands(food, service)) == Some(i) by {
          FirstNegativeAt(Radicands(food, service), i);
        }
        return map[name := DomainError(i)];
      }
      radicands := radicands + [radicand];
    }
    assert radicands == Radicands(food, service);
    return map[name := Terms(radicands)];
  }

  lemma FirstNegativeAt(rads: seq<int>, i: nat)
    requires i < |rads| && rads[i] < 0
    requires forall j :: 0 <= j < i ==> rads[j] >= 0
    ensures FirstNegative(rads) == Some(i)
  {
  }

  /**
   * For scores in 1..5 each radicand lies in 1..125, and it equals the
   * normaliser 125 only for a perfect (5, 5) review.
   */
  lemma RadicandInRange(food: int, service: int)
    requires 1 <= food <= 5 && 1 <= service <= 5
    ensures 1 <= Radicand(food, service) <= MaxRadicand
    ensures Radicand(food, service) == MaxRadicand <==> food == 5 && service == 5
  {
  }

  /**
   * A missing classification scores 0 and is still counted: for scores in
   * 0..5 every review contributes a radicand in 0..125, and the radicand is 0
   * exactly when one of its scores is 0.
   */
  lemma DefaultedRadicandInRange(food: int, service: int)
    requires 0 <= food <= 5 && 0 <= service <= 5
    ensures 0 <= Radicand(food, service) <= MaxRadicand
    ensures Radicand(food, service) == 0 <==> food == 0 || service == 0
  {
  }

  /**
   * For non-degenerate lists of scores in 0..5 `calculate_overall_score`
   * always reaches the formula, with one radicand in 0..125 per review.
   */
  lemma OutcomeInRange(food: seq<int>, service: seq<int>)
    requires !Degenerate(food, service)
    requires forall i :: 0 <= i < |food| ==> 0 <= food[i] <= 5
    requires forall i :: 0 <= i < |service| ==> 0 <= service[i] <= 5
    ensures OutcomeOf(food, service).Terms?
    ensures |OutcomeOf(food, service).radicands| == |food|
    ensures forall i :: 0 <= i < |food| ==> 0 <= OutcomeOf(food, service).radicands[i] <= MaxRadicand
  {
  }

  // ---------------------------------------------------------------------
  // The score over the reals
  // ---------------------------------------------------------------------

  ghost function Sum(xs: seq<real>): real {
    if xs == [] then 0.0 else Sum(xs[..|xs| - 1]) + xs[|xs| - 1]
  }

  /** `(Σ roots / (N × sqrt(125))) × 10` before rounding. */
  ghost function ScoreValue(roots: seq<real>, root125: real): real
    requires |roots| > 0 && root125 > 0.0
  {
    (Sum(roots) / (|roots| as real * root125)) * 10.0
  }

  /** `y` is the square root of `x`. */
  ghost predicate IsRoot(y: real, x: real) {
    y >= 0.0 && y * y == x
  }

  lemma RootMonotone(a: real, b: real)
    requires a >= 0.0 && b > 0.0 && a * a <= b * b
    ensures a <= b
  {
  }

  lemma {:induction false} SumBounds(roots: seq<real>, bound: real)
    requires forall i :: 0 <= i < |roots| ==> 0.0 <= roots[i] <= bound
    ensures 0.0 <= Sum(roots) <= |roots| as real * bound
  {
    if roots != [] {
      SumBounds(roots[..|roots| - 1], bound);
    }
  }

  lemma RatioAtMostOne(num: real, den: real)
    requires den > 0.0 && 0.0 <= num <= den
    ensures 0.0 <= num / den <= 1.0
  {
  }

  /**
   * For radicands in 0..125 (scores in 0..5) the unrounded score lies in
   * [0, 10], whatever the number of reviews.
   */
  lemma ScoreWithinZeroToTen(rads: seq<int>, roots: seq<real>, root125: real)
    requires |roots| == |rads| > 0
    requires forall i :: 0 <= i < |rads| ==> 0 <= rads[i] <= MaxRadicand
    requires forall i :: 0 <= i < |roots| ==> IsRoot(roots[i], rads[i] as real)
    requires root125 > 0.0 && IsRoot(root125, MaxRadicand as real)
    ensures 0.0 <= ScoreValue(roots, root125) <= 10.0
  {
    forall i | 0 <= i < |roots|
      ensures 0.0 <= roots[i] <= root125
    {
      RootMonotone(roots[i], root125);
    }
    SumBounds(roots, root125);
    RatioAtMostOne(Sum(roots), |roots| as real * root125);
  }
}
