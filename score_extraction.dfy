/**
 * `extract_scores`: turn the classifier's parsed reply,
 * `{"reviews": [{"food_score": .., "customer_service_score": ..}, ..]}`,
 * into two parallel lists of integer scores.
 */
module ScoreExtraction {
  import opened Wrappers
  import Aggregation

  /** One entry of the reply's `"reviews"` list; a field may be missing. */
  datatype ReviewScores = ReviewScores(foodScore: Option<int>, customerServiceScore: Option<int>)

  /** The parsed reply; its `"reviews"` key may be missing. */
  datatype AnalysisResult = AnalysisResult(reviews: Option<seq<ReviewScores>>)

  /** `reviews_data.get("reviews", [])`. */
  function Entries(data: AnalysisResult): seq<ReviewScores> {
    data.reviews.GetOr([])
  }

  /** The food scores of the entries, 0 where the field is missing. */
  function FoodScores(entries: seq<ReviewScores>): seq<int> {
    seq(|entries|, i requires 0 <= i < |entries| => entries[i].foodScore.GetOr(0))
  }

  /** The customer-service scores of the entries, 0 where the field is missing. */
  function ServiceScores(entries: seq<ReviewScores>): seq<int> {
    seq(|entries|, i requires 0 <= i < |entries| => entries[i].customerServiceScore.GetOr(0))
  }

  /**
   * `extract_scores(reviews_data)`: one food score and one service score per
   * entry, in entry order, a missing field giving 0, and two empty lists when
   * the reply has no `"reviews"` key.
   */
  method ExtractScores(data: AnalysisResult) returns (foodScores: seq<int>, customerServiceScores: seq<int>)
    ensures foodScores == FoodScores(Entries(data)) && customerServiceScores == ServiceScores(Entries(data))
    ensures |foodScores| == |customerServiceScores| == |Entries(data)|
    ensures data.reviews.None? ==> foodScores == [] && customerServiceScores == []
    ensures forall i :: 0 <= i < |foodScores| ==>
      && (Entries(data)[i].foodScore.Some? ==> foodScores[i] == Entries(data)[i].foodScore.value)
      && (Entries(data)[i].foodScore.None? ==> foodScores[i] == 0)
      && (Entries(data)[i].customerServiceScore.Some? ==> customerServiceScores[i] == Entries(data)[i].customerServiceScore.value)
      && (Entries(data)[i].customerServiceScore.None? ==> customerServiceScores[i] == 0)
  {
    foodScores, customerServiceScores := [], [];
    var entries := if data.reviews.Some? then data.reviews.value else [];
    for i := 0 to |entries|
      invariant foodScores == FoodScores(entries[..i])
      invariant customerServiceScores == ServiceScores(entries[..i])
    {
      var review := entries[i];
      foodScores := foodScores + [if review.foodScore.Some? then review.foodScore.value else 0];
      customerServiceScores := customerServiceScores +
        [if review.customerServiceScore.Some? then review.customerServiceScore.value else 0];
    }
    assert entries[..|entries|] == entries;
  }

  /**
   * When every entry carries both fields, the two lists give the entries
   * back, pair by pair.
   */
  lemma ScoresRoundTrip(entries: seq<ReviewScores>)
    requires forall i :: 0 <= i < |entries| ==> entries[i].foodScore.Some? && entries[i].customerServiceScore.Some?
    ensures |FoodScores(entries)| == |ServiceScores(entries)| == |entries|
    ensures forall i :: 0 <= i < |entries| ==>
      ReviewScores(Some(FoodScores(entries)[i]), Some(ServiceScores(entries)[i])) == entries[i]
  {
  }

  /**
   * The extracted lists never trip the aggregation's length-mismatch guard:
   * aggregation falls back to 0.0 exactly when the reply has no entries.
   */
  lemma ExtractedScoresReachFormula(data: AnalysisResult)
    ensures Aggregation.Degenerate(FoodScores(Entries(data)), ServiceScores(Entries(data))) <==> Entries(data) == []
  {
  }

  /**
   * For classifier scores in 1..5, every extracted score lies in 0..5, with 0
   * standing exactly for a missing field, so aggregation reaches its formula
   * and counts the defaulted reviews at full weight.
   */
  lemma ExtractedScoresInRange(data: AnalysisResult)
    requires forall e :: e in Entries(data) && e.foodScore.Some? ==> 1 <= e.foodScore.value <= 5
    requires forall e :: e in Entries(data) && e.customerServiceScore.Some? ==> 1 <= e.customerServiceScore.value <= 5
    requires Entries(data) != []
    ensures var food, service := FoodScores(Entries(data)), ServiceScores(Entries(data));
      && Aggregation.OutcomeOf(food, service).Terms?
      && |Aggregation.OutcomeOf(food, service).radicands| == |Entries(data)|
      && forall i :: 0 <= i < |food| ==> 0 <= Aggregation.OutcomeOf(food, service).radicands[i] <= Aggregation.MaxRadicand
  {
  }
}
