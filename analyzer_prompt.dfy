/**
 * `get_review_analyzer_prompt`: the request sent to the review classifier,
 * a fixed scoring rubric followed by one quoted bullet per review.
 */
module AnalyzerPrompt {

  /** The fixed rubric that opens every prompt. */
  const Rubric: string :=
    "Analyze the following restaurant reviews and extract two scores for each review:\n" +
    "1. food_score (1-5)\n" +
    "2. customer_service_score (1-5)\n\n" +
    "Use the following adjective mappings to determine the scores:\n" +
    "- Score 1: awful, horrible, disgusting\n" +
    "- Score 2: bad, unpleasant, offensive\n" +
    "- Score 3: average, uninspiring, forgettable\n" +
    "- Score 4: good, enjoyable, satisfying\n" +
    "- Score 5: awesome, incredible, amazing\n\n" +
    "Each review contains exactly two adjectives, one for food and one for customer service.\n\n" +
    "Provide the results in the following JSON format without adding any markdown:\n" +
    "{\n" +
    "  \"reviews\": [\n" +
    "    {\n" +
    "      \"food_score\": <int>,\n" +
    "      \"customer_service_score\": <int>\n" +
    "    },\n" +
    "    ...\n" +
    "  ]\n" +
    "}"

  /** The line appended for one review: a newline, a dash, and the review in double quotes. */
  function Bullet(review: string): string {
    "\n- \"" + review + "\""
  }

  /** The bullets of the reviews, in order. */
  function Bullets(reviews: seq<string>): string {
    if reviews == [] then "" else Bullets(reviews[..|reviews| - 1]) + Bullet(reviews[|reviews| - 1])
  }

  /** The whole prompt for `reviews`. */
  function PromptOf(reviews: seq<string>): string {
    Rubric + Bullets(reviews)
  }

  /** The characters the bullets add: each review's length plus five. */
  function BulletsLength(reviews: seq<string>): nat {
    if reviews == [] then 0 else BulletsLength(reviews[..|reviews| - 1]) + |reviews[|reviews| - 1]| + 5
  }

  /** Where the bullet of review `i` starts in the prompt. */
  function BulletStart(reviews: seq<string>, i: nat): nat
    requires i <= |reviews|
  {
    |Rubric| + BulletsLength(reviews[..i])
  }

  lemma {:induction false} BulletsAppend(a: seq<string>, b: seq<string>)
    ensures Bullets(a + b) == Bullets(a) + Bullets(b)
  {
    if b == [] {
      assert a + b == a;
    } else {
      var init := b[..|b| - 1];
      assert (a + b)[..|a + b| - 1] == a + init;
      assert (a + b)[|a + b| - 1] == b[|b| - 1];
      BulletsAppend(a, init);
    }
  }

  /** The prompt's length is the rubric's plus, for each review, its length and five. */
  lemma {:induction false} BulletsSize(reviews: seq<string>)
    ensures |Bullets(reviews)| == BulletsLength(reviews)
  {
    if reviews != [] {
      BulletsSize(reviews[..|reviews| - 1]);
    }
  }

  lemma PromptAround(reviews: seq<string>, i: nat)
    requires i < |reviews|
    ensures PromptOf(reviews) == (Rubric + Bullets(reviews[..i])) + Bullet(reviews[i]) + Bullets(reviews[i + 1..])
  {
    var before, after := reviews[..i], reviews[i + 1..];
    assert reviews == before + [reviews[i]] + after;
    BulletsAppend(before + [reviews[i]], after);
    BulletsAppend(before, [reviews[i]]);
    assert Bullets([reviews[i]]) == Bullet(reviews[i]) by {
      assert [reviews[i]][..0] == [];
    }
  }

  /**
   * Review `i` can be read back from the prompt: its bullet sits at
   * `BulletStart(reviews, i)`, and the review text four characters later.
   */
  lemma PromptReviewAt(reviews: seq<string>, i: nat)
    requires i < |reviews|
    ensures BulletStart(reviews, i) + |reviews[i]| + 5 <= |PromptOf(reviews)|
    ensures PromptOf(reviews)[BulletStart(reviews, i)..BulletStart(reviews, i) + |reviews[i]| + 5] == Bullet(reviews[i])
    ensures PromptOf(reviews)[BulletStart(reviews, i) + 4..BulletStart(reviews, i) + 4 + |reviews[i]|] == reviews[i]
  {
    PromptAround(reviews, i);
    BulletsSize(reviews[..i]);
    var head, bullet := Rubric + Bullets(reviews[..i]), Bullet(reviews[i]);
    SliceOfConcat(head, bullet, Bullets(reviews[i + 1..]), 0, |bullet|);
    SliceOfConcat(head, bullet, Bullets(reviews[i + 1..]), 4, 4 + |reviews[i]|);
    assert bullet[4..4 + |reviews[i]|] == reviews[i];
  }

  lemma SliceOfConcat(a: string, b: string, c: string, x: nat, y: nat)
    requires x <= y <= |b|
    ensures (a + b + c)[|a| + x..|a| + y] == b[x..y]
  {
  }

  /**
   * `get_review_analyzer_prompt(reviews)`: start from the rubric and append
   * one bullet per review, in order.
   */
  method GetReviewAnalyzerPrompt(reviews: seq<string>) returns (prompt: string)
    ensures prompt == PromptOf(reviews)
    ensures |prompt| == |Rubric| + BulletsLength(reviews)
    ensures prompt[..|Rubric|] == Rubric
    ensures reviews == [] ==> prompt == Rubric
  {
    prompt := Rubric;
    for i := 0 to |reviews|
      invariant prompt == Rubric + Bullets(reviews[..i])
    {
      assert reviews[..i + 1][..i] == reviews[..i];
      prompt := prompt + "\n- \"" + reviews[i] + "\"";
    }
    assert reviews[..|reviews|] == reviews;
    BulletsSize(reviews);
  }
}
