/**
 * The six moods of the mood check-in and the case-insensitive lookup of a
 * mood's emoji by its label.
 *
 * Lower-casing is ASCII-only here. For this lookup that is the same as
 * JavaScript's full `toLowerCase`: the labels are ASCII, and the only
 * non-ASCII characters whose lower case contains an ASCII letter are
 * U+212A KELVIN SIGN (to `k`, a letter no label has) and U+0130 (to `i`
 * followed by a combining dot, never all-ASCII).
 */
module Moods {
  import opened Wrappers
  import Text

  /** `label` is a reserved word in Dafny, so the label is the field `name`. */
  datatype Mood = Mood(emoji: string, name: string)

  const MOODS: seq<Mood> := [
    Mood("\U{1F60A}", "Happy"),
    Mood("\U{1F60C}", "Calm"),
    Mood("\U{1F614}", "Sad"),
    Mood("\U{1F630}", "Anxious"),
    Mood("\U{1F634}", "Tired"),
    Mood("\U{1F624}", "Frustrated")
  ]

  /** Shown when there is no mood, or the mood is unknown. */
  const NO_MOOD_EMOJI: string := "\U{1F636}"

  /** The label of `m` matches `mood` ignoring case. */
  predicate LabelMatches(m: Mood, mood: string) {
    Text.AsciiLower(m.name) == Text.AsciiLower(mood)
  }

  /** `moods.find(m => m.label.toLowerCase() === mood.toLowerCase())`. */
  function FindMood(moods: seq<Mood>, mood: string): (r: Option<Mood>)
    ensures r.None? <==> forall i :: 0 <= i < |moods| ==> !LabelMatches(moods[i], mood)
    ensures r.Some? ==> r.value in moods && LabelMatches(r.value, mood)
  {
    if moods == [] then None
    else if LabelMatches(moods[0], mood) then Some(moods[0])
    else
      var r := FindMood(moods[1..], mood);
      assert forall i :: 1 <= i < |moods| ==> moods[i] == moods[1..][i - 1];
      r
  }

  /** `getMoodEmoji(mood)`; a missing mood is `None`. */
  function GetMoodEmoji(mood: Option<string>): (r: string)
    ensures r == NO_MOOD_EMOJI || exists i :: 0 <= i < |MOODS| && r == MOODS[i].emoji
  {
    if mood == None || mood == Some("") then NO_MOOD_EMOJI
    else
      match FindMood(MOODS, mood.value)
      case Some(m) => m.emoji
      case None => NO_MOOD_EMOJI
  }

  /** No lower-cased label is the lower-cased form of another: at most one mood matches any input. */
  lemma LabelsDistinctIgnoringCase()
    ensures forall i, j :: 0 <= i < j < |MOODS| ==> Text.AsciiLower(MOODS[i].name) != Text.AsciiLower(MOODS[j].name)
  {
    assert Text.AsciiLower("Happy") == "happy";
    assert Text.AsciiLower("Calm") == "calm";
    assert Text.AsciiLower("Sad") == "sad";
    assert Text.AsciiLower("Anxious") == "anxious";
    assert Text.AsciiLower("Tired") == "tired";
    assert Text.AsciiLower("Frustrated") == "frustrated";
  }

  /** No mood, or an empty string, shows the neutral face. */
  lemma MissingMoodIsNeutral()
    ensures GetMoodEmoji(None) == NO_MOOD_EMOJI
    ensures GetMoodEmoji(Some("")) == NO_MOOD_EMOJI
  {}

  /** An input that equals a label up to case shows that mood's emoji. */
  lemma MatchingLabelGivesEmoji(mood: string, k: int)
    requires 0 <= k < |MOODS| && LabelMatches(MOODS[k], mood)
    ensures GetMoodEmoji(Some(mood)) == MOODS[k].emoji
  {
    assert |mood| == |MOODS[k].name| > 0;
    LabelsDistinctIgnoringCase();
  }

  /** An input that matches no label shows the neutral face. */
  lemma UnknownMoodIsNeutral(mood: string)
    requires forall i :: 0 <= i < |MOODS| ==> !LabelMatches(MOODS[i], mood)
    ensures GetMoodEmoji(Some(mood)) == NO_MOOD_EMOJI
  {}

  lemma LookupExamples()
    ensures GetMoodEmoji(Some("happy")) == "\U{1F60A}"
    ensures GetMoodEmoji(Some("HAPPY")) == "\U{1F60A}"
  {
    assert Text.AsciiLower("Happy") == "happy";
    assert Text.AsciiLower("happy") == "happy";
    assert Text.AsciiLower("HAPPY") == "happy";
    MatchingLabelGivesEmoji("happy", 0);
    MatchingLabelGivesEmoji("HAPPY", 0);
  }

  /** The lookup sees only the lower-cased input: inputs equal up to case show the same emoji. */
  lemma {:induction false} FindMoodIgnoresCase(moods: seq<Mood>, a: string, b: string)
    requires Text.AsciiLower(a) == Text.AsciiLower(b)
    ensures FindMood(moods, a) == FindMood(moods, b)
  {
    if moods != [] {
      FindMoodIgnoresCase(moods[1..], a, b);
    }
  }

  lemma CaseInsensitive(a: string, b: string)
    requires Text.AsciiLower(a) == Text.AsciiLower(b)
    ensures GetMoodEmoji(Some(a)) == GetMoodEmoji(Some(b))
  {
    FindMoodIgnoresCase(MOODS, a, b);
    assert |a| == |b|;
  }
}
