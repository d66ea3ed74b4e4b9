/** The emoji catalogue and the option lists of the goal and reward pickers. */
module Emoji {

  /** The keys of `EMOJI`, in declaration order. */
  datatype EmojiName =
    | Target | Gift | Coffee | Books | Spa | Movie | Writing
    | Happy | Calm | Sad | Anxious | Tired | Frustrated
    | Sparkles | Cat | Gear | Chart | Neutral

  const ALL_NAMES: seq<EmojiName> := [
    Target, Gift, Coffee, Books, Spa, Movie, Writing,
    Happy, Calm, Sad, Anxious, Tired, Frustrated,
    Sparkles, Cat, Gear, Chart, Neutral
  ]

  /** `EMOJI[name]`: each value is a single code point. */
  function EmojiOf(name: EmojiName): (e: string)
    ensures |e| == 1
  {
    match name
    case Target => "\U{1F3AF}"
    case Gift => "\U{1F381}"
    case Coffee => "\U{2615}"
    case Books => "\U{1F4DA}"
    case Spa => "\U{1F9D6}"
    case Movie => "\U{1F3AC}"
    case Writing => "\U{1F4DD}"
    case Happy => "\U{1F60A}"
    case Calm => "\U{1F60C}"
    case Sad => "\U{1F614}"
    case Anxious => "\U{1F630}"
    case Tired => "\U{1F634}"
    case Frustrated => "\U{1F624}"
    case Sparkles => "\U{2728}"
    case Cat => "\U{1F431}"
    case Gear => "\U{2699}"
    case Chart => "\U{1F4C8}"
    case Neutral => "\U{1F636}"
  }

  /** A value of `EMOJI`. */
  predicate IsEmojiValue(e: string) {
    exists i :: 0 <= i < |ALL_NAMES| && EmojiOf(ALL_NAMES[i]) == e
  }

  const GOAL_EMOJI_OPTIONS: seq<string> := [
    EmojiOf(Target), EmojiOf(Sparkles), EmojiOf(Books), EmojiOf(Coffee),
    EmojiOf(Writing), EmojiOf(Happy), EmojiOf(Calm), EmojiOf(Cat)
  ]

  const REWARD_EMOJI_OPTIONS: seq<string> := [
    EmojiOf(Gift), EmojiOf(Coffee), EmojiOf(Books), EmojiOf(Spa),
    EmojiOf(Movie), EmojiOf(Sparkles), EmojiOf(Cat)
  ]

  predicate NoDuplicates(s: seq<string>) {
    forall i, j :: 0 <= i < j < |s| ==> s[i] != s[j]
  }

  /** The catalogue has 18 keys and its 18 values are pairwise distinct. */
  lemma EmojiValuesDistinct()
    ensures |ALL_NAMES| == 18
    ensures forall i, j :: 0 <= i < j < |ALL_NAMES| ==> ALL_NAMES[i] != ALL_NAMES[j]
    ensures forall a: EmojiName, b: EmojiName :: a != b ==> EmojiOf(a) != EmojiOf(b)
  {}

  /** Every key of the catalogue is listed. */
  lemma AllNamesComplete(name: EmojiName)
    ensures name in ALL_NAMES
  {}

  /** The goal picker offers 8 distinct catalogue values. */
  lemma GoalOptionsWellFormed()
    ensures |GOAL_EMOJI_OPTIONS| == 8 && NoDuplicates(GOAL_EMOJI_OPTIONS)
    ensures forall i :: 0 <= i < |GOAL_EMOJI_OPTIONS| ==> IsEmojiValue(GOAL_EMOJI_OPTIONS[i])
  {
    GoalOptionsDistinct();
    forall i | 0 <= i < |GOAL_EMOJI_OPTIONS| ensures IsEmojiValue(GOAL_EMOJI_OPTIONS[i]) {
      ValueOfName(GOAL_EMOJI_OPTIONS[i]);
    }
  }

  lemma GoalOptionsDistinct()
    ensures |GOAL_EMOJI_OPTIONS| == 8 && NoDuplicates(GOAL_EMOJI_OPTIONS)
  {
  }

  /** The reward picker offers 7 distinct catalogue values. */
  lemma RewardOptionsWellFormed()
    ensures |REWARD_EMOJI_OPTIONS| == 7 && NoDuplicates(REWARD_EMOJI_OPTIONS)
    ensures forall i :: 0 <= i < |REWARD_EMOJI_OPTIONS| ==> IsEmojiValue(REWARD_EMOJI_OPTIONS[i])
  {
    RewardOptionsDistinct();
    forall i | 0 <= i < |REWARD_EMOJI_OPTIONS| ensures IsEmojiValue(REWARD_EMOJI_OPTIONS[i]) {
      ValueOfName(REWARD_EMOJI_OPTIONS[i]);
    }
  }

  lemma RewardOptionsDistinct()
    ensures |REWARD_EMOJI_OPTIONS| == 7 && NoDuplicates(REWARD_EMOJI_OPTIONS)
  {
  }

  lemma ValueOfName(e: string)
    requires exists name :: EmojiOf(name) == e
    ensures IsEmojiValue(e)
  {
    var name :| EmojiOf(name) == e;
    AllNamesComplete(name);
    var i :| 0 <= i < |ALL_NAMES| && ALL_NAMES[i] == name;
    assert EmojiOf(ALL_NAMES[i]) == e;
  }

  /** The neutral face is offered by neither picker. */
  lemma NeutralNotOffered()
    ensures EmojiOf(Neutral) !in GOAL_EMOJI_OPTIONS
    ensures EmojiOf(Neutral) !in REWARD_EMOJI_OPTIONS
  {}
}
