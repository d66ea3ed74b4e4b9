/**
 * Writing prompts and the currency earned by reflections: half a cent per
 * word, rounded down, and a flat amount for a mood check-in.
 */
module WritingPrompts {

  const PROMPTS: seq<string> := [
    "What brought you joy today?",
    "What's one thing you're proud of?",
    "How does your body feel right now?",
    "What can you let go of tonight?",
    "What are you grateful for today?",
    "Describe a moment that made you smile.",
    "What did you learn about yourself recently?",
    "What would make tomorrow great?",
    "How did you take care of yourself today?",
    "What's something kind you did for someone?",
    "What's been on your mind lately?",
    "Describe a small win you had today.",
    "What gives you energy?",
    "What's one thing you'd like to improve?",
    "How are you feeling right now, honestly?",
    "What's a boundary you're glad you set?",
    "What does rest look like for you?",
    "Write about a person who inspires you.",
    "What's something you forgive yourself for?",
    "What are you looking forward to?"
  ]

  /** The number of prompts offered when no count is given. */
  const DEFAULT_PROMPT_COUNT: nat := 4

  /** Earning rate per word, in cents (an exact rational here). */
  const CENTS_PER_WORD: real := 0.5

  /** Flat reward for a mood check-in, in cents. */
  const MOOD_CHECKIN_REWARD: int := 2

  /** The twenty prompts are pairwise distinct. */
  lemma PromptsDistinct()
    ensures |PROMPTS| == 20
    ensures forall i, j :: 0 <= i < j < |PROMPTS| ==> PROMPTS[i] != PROMPTS[j]
  {}

  /**
   * The outcome of shuffling a copy of PROMPTS: position `i` of the shuffled copy
   * holds `PROMPTS[order[i]]`, and `order` is a permutation of the indices.
   */
  predicate IsShuffle(order: seq<int>) {
    && |order| == |PROMPTS|
    && (forall i :: 0 <= i < |order| ==> 0 <= order[i] < |PROMPTS|)
    && (forall i, j :: 0 <= i < j < |order| ==> order[i] != order[j])
  }

  function Min(a: int, b: int): int {
    if a <= b then a else b
  }

  /**
   * `getRandomPrompts(count)`: the first `count` prompts of a shuffled copy.
   * The random order is the parameter `order`.
   */
  function GetRandomPrompts(count: nat, order: seq<int>): (r: seq<string>)
    requires IsShuffle(order)
    ensures |r| == Min(count, |PROMPTS|)
    ensures forall i :: 0 <= i < |r| ==> r[i] in PROMPTS
    ensures forall i, j :: 0 <= i < j < |r| ==> r[i] != r[j]
  {
    PromptsDistinct();
    var shuffled := seq(|PROMPTS|, i requires 0 <= i < |PROMPTS| => PROMPTS[order[i]]);
    assert forall i :: 0 <= i < |shuffled| ==> shuffled[i] == PROMPTS[order[i]];
    shuffled[..Min(count, |shuffled|)]
  }

  /** With the default count, four distinct prompts are offered. */
  lemma DefaultOffersFour(order: seq<int>)
    requires IsShuffle(order)
    ensures |GetRandomPrompts(DEFAULT_PROMPT_COUNT, order)| == 4
  {}

  /**
   * `calculateReflectionEarnings(wordCount)`: `Math.floor(wordCount * CENTS_PER_WORD)`.
   * The result is the whole number of cents `e` with `2e <= wordCount < 2e + 2`.
   */
  function CalculateReflectionEarnings(wordCount: int): (e: int)
    ensures 2 * e <= wordCount < 2 * e + 2
  {
    (wordCount as real * CENTS_PER_WORD).Floor
  }

  /** Flooring half the word count is integer division by two (which floors for a positive divisor). */
  lemma EarningsIsHalfRoundedDown(wordCount: int)
    ensures CalculateReflectionEarnings(wordCount) == wordCount / 2
  {}

  lemma EarningsExamples()
    ensures CalculateReflectionEarnings(0) == 0 && CalculateReflectionEarnings(1) == 0
    ensures CalculateReflectionEarnings(2) == 1 && CalculateReflectionEarnings(3) == 1
    ensures CalculateReflectionEarnings(100) == 50
  {}

  /** More words never earn less. */
  lemma EarningsMonotone(m: int, n: int)
    requires m <= n
    ensures CalculateReflectionEarnings(m) <= CalculateReflectionEarnings(n)
  {}

  /** For a real word count the earnings lie between zero and the word count. */
  lemma EarningsBounded(wordCount: int)
    requires wordCount >= 0
    ensures 0 <= CalculateReflectionEarnings(wordCount) <= wordCount
  {}
}
