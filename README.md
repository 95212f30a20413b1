# TasteRate review helpers, modelled in Dafny

TasteRate answers "how good is restaurant X?" by asking a language model for
the restaurant's name, fetching that restaurant's reviews from a flat corpus
(`<Restaurant>. <review>` per line), asking a second model to grade each review
for food and for customer service on a 1–5 scale, and combining the grades into
one score. This project models the deterministic helpers of `main.py` that sit
between the model calls, and proves what they promise:

- `wrappers.dfy` — `Option`, Python's `None` versus a present value.
- `text.dfy` — the string built-ins the helpers use: `str.strip()`
  (`Text.Strip`), `str.lower()` (`Text.Lower`), substring `in`
  (`Text.Contains`) and `str.split(sep, 1)` for a non-empty separator
  (`Text.SplitOnce`, built on
  `Text.FindFirst`).
- `review_index.dfy` — `fetch_restaurant_data`: parsing corpus lines into
  records, building the insertion-ordered dictionary from name to reviews
  (`BuildIndex`, a loop specified by the function `IndexOf`), and the
  case-insensitive substring lookup that merges every matching restaurant and
  falls back to the sentinel `"No reviews found for this restaurant."`
  (`LookupReviews`, specified by `Lookup`).
- `analyzer_prompt.dfy` — `get_review_analyzer_prompt`: the fixed rubric
  followed by one `\n- "<review>"` bullet per review.
- `score_extraction.dfy` — `extract_scores`: two parallel score lists from the
  classifier's reply, 0 for a missing field.
- `tool_calls.dfy` — `extract_function_arguments`: the raw arguments of the
  first `fetch_restaurant_data` tool call in a chat transcript.
- `aggregation.dfy` — `calculate_overall_score`: the 0.0 fallback for empty or
  mismatched lists and the per-review radicand `food² × service`; the score's
  [0, 10] range is proved over the reals, with every square root given by its
  defining property.

The corpus file is an input: the model takes the sequence of its lines. A
Python dict is modelled as `ReviewIndex.Index`, its keys in insertion order
beside a map. Each loop of `main.py` is a method whose postcondition ties
its result to a specification function, and the lemmas state that function's
properties.

A transcript with no `fetch_restaurant_data` call gives `None`. A negative
radicand (a negative service score with a non-zero food score) makes
`math.sqrt` raise `ValueError`, modelled as `DomainError`.

## Model

| member | source | states |
|---|---|---|
| Text.Strip | main.py:21 | the result is empty iff the line is all whitespace; otherwise it is the slice that starts after the leading whitespace, is followed only by whitespace, and neither starts nor ends with whitespace |
| Text.FindFirst | main.py:26 | the position found is an occurrence of the separator and no earlier position is; no position is found iff the separator does not occur |
| Text.SplitOnce | main.py:26 | for a non-empty separator (Python rejects an empty one), two parts exist iff the separator occurs; then the line is head + separator + tail, with no occurrence starting inside the head |
| Text.Lower | main.py:40 | same length; ASCII capitals become the corresponding lower-case letter, every other character is unchanged |
| Text.Contains | main.py:40 | `needle in hay`: an occurrence needs `len(needle) <= len(hay)`; the empty string and `hay` itself always occur |
| ReviewIndex.ParseLine | main.py:21-35 | a line yields a record iff, once stripped, it is non-empty and contains `". "` |
| ReviewIndex.ParseLineAt | main.py:26-28 | when the stripped line is head + `". "` + tail and head holds no `". "`, the record is (strip(head), strip(tail)), whatever tail holds |
| ReviewIndex.BuildIndex | main.py:16-35 | the dictionary equals the one built by inserting the corpus's records in line order (`IndexOf`), and it is well formed: distinct keys, the keys are the domain, no empty list |
| ReviewIndex.BuildWellFormed | main.py:30-32 | keys are distinct, the keys are the map's domain, no key has an empty list, and a name is a key iff some record carries it |
| ReviewIndex.BuildReviews | main.py:30-32 | each key's list is the subsequence of reviews of that name's records, in order |
| ReviewIndex.BuildKeyOrder | main.py:30-31 | keys are in order of first appearance: each key appears among the records before the first record of any later key |
| ReviewIndex.AllReviewsCover | main.py:30-32 | the dictionary holds every review of the corpus exactly once (equal multisets) |
| ReviewIndex.Matches | main.py:40 | the case-insensitive substring test: the empty fragment matches every key, a match needs the fragment no longer than the key, and a key matches any fragment equal to it up to case |
| ReviewIndex.LookupReviews | main.py:38-44 | the result equals `Lookup`: a one-entry map keyed by the fragment as passed, never empty |
| ReviewIndex.FetchRestaurantData | main.py:14-44 | the result is the lookup of the fragment in the dictionary built from the lines, keyed by the fragment, never empty |
| ReviewIndex.LookupSentinel | main.py:44 | the result is keyed by the fragment and never empty; it is exactly the sentinel when no key matches, and the gathered reviews when some key matches |
| ReviewIndex.GatherEmpty | main.py:38-41 | nothing is gathered iff no key contains the lower-cased fragment |
| ReviewIndex.GatherMembers | main.py:39-41 | a review is gathered iff some matching key lists it |
| ReviewIndex.GatherEmptyFragment | main.py:40 | the empty fragment gathers every review, in key order then review order |
| ReviewIndex.GatherNoMatch | main.py:39-41 | keys none of which match contribute no reviews |
| ReviewIndex.GatherOnly | main.py:39-41 | when exactly one key matches, the gathered reviews are that key's list |
| ReviewIndex.LookupUniqueMatch | main.py:39-44 | a fragment that matches only one key yields exactly that key's reviews in order |
| ReviewIndex.LookupTwoMatches | main.py:39-41 | a fragment that matches exactly two keys yields the earlier key's reviews followed by the later key's |
| ReviewIndex.GatherIgnoresCase | main.py:40 | fragments that lower-case alike gather the same reviews |
| ReviewIndex.FetchUniqueMatch | main.py:14-44 | for a fragment matching exactly one restaurant name of a corpus's records, the result is that restaurant's reviews in line order |
| ReviewIndex.FetchNoMatch | main.py:38-44 | when no restaurant name of a corpus's records matches, the result is exactly `["No reviews found for this restaurant."]` |
| ReviewIndex.FetchEmptyCorpus | main.py:20-44 | a corpus with no valid line answers every fragment with exactly `{fragment: ["No reviews found for this restaurant."]}` |
| ReviewIndex.FetchEverything | main.py:30-41 | for a corpus with at least one record, the empty fragment returns every review in key-then-review order, the same multiset as the records' reviews |
| AnalyzerPrompt.GetReviewAnalyzerPrompt | main.py:82-109 | the prompt is the rubric followed by one bullet per review in order; it starts with the rubric, equals it when there are no reviews, and has length rubric + Σ(len(r) + 5) |
| AnalyzerPrompt.BulletsSize | main.py:107-108 | the bullets add Σ(len(r) + 5) characters |
| AnalyzerPrompt.PromptAround | main.py:107-108 | the prompt is the rubric, the bullets before review i, review i's bullet, then the bullets after it |
| AnalyzerPrompt.PromptReviewAt | main.py:107-108 | review i's bullet `\n- "r"` sits at a computable offset, and the review text can be read back from it |
| ScoreExtraction.ExtractScores | main.py:112-122 | two lists of the same length as the `"reviews"` entries, entry by entry the field's value or 0 when it is missing; two empty lists when `"reviews"` is absent |
| ScoreExtraction.ScoresRoundTrip | main.py:118-120 | when every entry has both fields, pairing the two lists gives the entries back |
| ScoreExtraction.ExtractedScoresReachFormula | main.py:114-122 | the extracted lists never differ in length, so aggregation falls back exactly when the reply has no entries |
| ScoreExtraction.ExtractedScoresInRange | main.py:118-120 | with classifier scores in 1..5, aggregation of the extracted lists reaches the formula with one radicand in 0..125 per entry, defaulted entries included |
| ToolCalls.ExtractFunctionArguments | main.py:67-79 | `None` without a transcript; otherwise `None` iff no call is named `fetch_restaurant_data`, and else the arguments of the first such call in message-then-call order |
| ToolCalls.FirstFetchUnique | main.py:71-78 | the first matching call is unique, so the search's answer is determined |
| Aggregation.CalculateOverallScore | main.py:47-64 | a one-entry map keyed by the name; the fallback iff either list is empty or their lengths differ; otherwise one radicand `food[i]² × service[i]` per review in order, or the first review whose radicand is negative |
| Aggregation.FirstNegative | main.py:57-58 | the first index whose radicand is negative, or none when all are non-negative |
| Aggregation.RadicandInRange | main.py:58 | for scores in 1..5 the radicand lies in 1..125 and equals the normaliser 125 iff both scores are 5 |
| Aggregation.DefaultedRadicandInRange | main.py:58 | for scores in 0..5 the radicand lies in 0..125 and is 0 iff a score is 0 |
| Aggregation.OutcomeInRange | main.py:47-58 | for non-degenerate lists of scores in 0..5 the formula is reached with one radicand in 0..125 per review |
| Aggregation.ScoreWithinZeroToTen | main.py:57-61 | with radicands in 0..125 and exact square roots, `(Σ roots / (N × sqrt(125))) × 10` lies in [0, 10] |

## Left out

- Reading `restaurant-data.txt` (main.py:19): the corpus is the sequence of its lines.
- `eval(arguments)` (main.py:78), and `main` taking `"restaurant_name"` from its result: the model returns the raw argument text.
- `main()` (main.py:125-173): model-backed chats, `json.loads` of the reply, printing.
- `main_swarm.py`: agent definitions and model calls only.
- Aggregation.CalculateOverallScore: does not compute the floating-point score; `math.sqrt`, the division and `round(…, 3)` are not modelled, only the guard, the radicands and the first `ValueError`. Nor does it model the `OverflowError` `math.sqrt` raises when a radicand is too large in magnitude to convert to a double (about 2^1024, e.g. a food score of 10^155): the model then gives `Terms`, or `DomainError` at that review or at a later negative radicand, where `calculate_overall_score` raises `OverflowError` at that review (main.py:58).
- Aggregation.ScoreWithinZeroToTen: states the range before `round(…, 3)`, over exact reals rather than doubles.
- Text.Lower: lower-cases ASCII letters only; Python's `str.lower()` also maps other Unicode letters.
- Text.Strip: strips exactly the characters Python's `str.isspace()` accepts, as a fixed list.
- ToolCalls.ExtractFunctionArguments: a tool call is assumed to carry `function.name` and `function.arguments`, and `"tool_calls"`, when present, to hold a list; the `KeyError`/`TypeError` `extract_function_arguments` raises otherwise is not modelled.
- ScoreExtraction.ExtractScores: a score field is an integer or missing; other JSON values that `dict.get` would return unchanged are not modelled.
- ScoreExtraction.ExtractScores: `"reviews"`, when present, is assumed to hold a list of objects; the `TypeError` (main.py:118, e.g. `null`) or `AttributeError` (main.py:119, e.g. a list of numbers) `extract_scores` raises otherwise is not modelled.
