/**
 * Facts that tie the emoji catalogue, the mood table and the asset map
 * together: the picker options and the moods all have images, and the
 * neutral face used for an unknown mood is always shown as text.
 */
module EmojiConsistency {
  import opened Wrappers
  import opened Emoji
  import Moods
  import FluentEmoji

  /** The mood fallback is the catalogue's neutral face. */
  lemma NeutralIsMoodFallback()
    ensures EmojiOf(Neutral) == Moods.NO_MOOD_EMOJI
  {}

  /** The six moods use the catalogue's emoji of the same name. */
  lemma MoodEmojiFromCatalogue()
    ensures |Moods.MOODS| == 6
    ensures Moods.MOODS[0] == Moods.Mood(EmojiOf(Happy), "Happy")
    ensures Moods.MOODS[1] == Moods.Mood(EmojiOf(Calm), "Calm")
    ensures Moods.MOODS[2] == Moods.Mood(EmojiOf(Sad), "Sad")
    ensures Moods.MOODS[3] == Moods.Mood(EmojiOf(Anxious), "Anxious")
    ensures Moods.MOODS[4] == Moods.Mood(EmojiOf(Tired), "Tired")
    ensures Moods.MOODS[5] == Moods.Mood(EmojiOf(Frustrated), "Frustrated")
  {}

  /** Every goal picker option has a bundled image. */
  lemma GoalOptionsHaveAssets()
    ensures forall i :: 0 <= i < |GOAL_EMOJI_OPTIONS| ==> GOAL_EMOJI_OPTIONS[i] in FluentEmoji.EMOJI_ASSET_MAP
  {
    FluentEmoji.AssetMapByName(Target);
    FluentEmoji.AssetMapByName(Sparkles);
    FluentEmoji.AssetMapByName(Books);
    FluentEmoji.AssetMapByName(Coffee);
    FluentEmoji.AssetMapByName(Writing);
    FluentEmoji.AssetMapByName(Happy);
    FluentEmoji.AssetMapByName(Calm);
    FluentEmoji.AssetMapByName(Cat);
  }

  /** Every reward picker option has a bundled image. */
  lemma RewardOptionsHaveAssets()
    ensures forall i :: 0 <= i < |REWARD_EMOJI_OPTIONS| ==> REWARD_EMOJI_OPTIONS[i] in FluentEmoji.EMOJI_ASSET_MAP
  {
    FluentEmoji.AssetMapByName(Gift);
    FluentEmoji.AssetMapByName(Coffee);
    FluentEmoji.AssetMapByName(Books);
    FluentEmoji.AssetMapByName(Spa);
    FluentEmoji.AssetMapByName(Movie);
    FluentEmoji.AssetMapByName(Sparkles);
    FluentEmoji.AssetMapByName(Cat);
  }

  /** Every mood emoji has a bundled image. */
  lemma MoodsHaveAssets()
    ensures forall i :: 0 <= i < |Moods.MOODS| ==> Moods.MOODS[i].emoji in FluentEmoji.EMOJI_ASSET_MAP
  {
    MoodEmojiFromCatalogue();
    FluentEmoji.AssetMapByName(Happy);
    FluentEmoji.AssetMapByName(Calm);
    FluentEmoji.AssetMapByName(Sad);
    FluentEmoji.AssetMapByName(Anxious);
    FluentEmoji.AssetMapByName(Tired);
    FluentEmoji.AssetMapByName(Frustrated);
  }

  /**
   * The emoji looked up for any mood renders as an image when the mood is known,
   * and as the neutral face in text otherwise.
   */
  lemma MoodRendering(mood: Option<string>, caption: Option<string>, size: Option<int>)
    ensures var e := Moods.GetMoodEmoji(mood);
      var r := FluentEmoji.Render(e, caption, size, None);
      if e == Moods.NO_MOOD_EMOJI then r.Glyph? && r.content == EmojiOf(Neutral)
      else r.Image? && r.width == r.height == size.OrElse(FluentEmoji.DEFAULT_SIZE)
  {
    var e := Moods.GetMoodEmoji(mood);
    if e == Moods.NO_MOOD_EMOJI {
      FluentEmoji.NeutralHasNoAsset();
    } else {
      MoodsHaveAssets();
      FluentEmoji.AssetNamesNonEmpty();
    }
  }
}
