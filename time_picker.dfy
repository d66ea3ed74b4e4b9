/**
 * The time input: its minute step, clamped to a safe value, becomes the
 * input's `step` in seconds; an empty input stands for "no time".
 */
module TimePicker {
  import opened Wrappers

  const DEFAULT_MINUTE_STEP: int := 5
  const MAX_MINUTE_STEP: int := 30

  /** `safeStep`: a step in (0, 30] minutes is kept, anything else becomes 5. */
  function SafeStep(minuteStep: int): (s: int)
    ensures 1 <= s <= MAX_MINUTE_STEP
    ensures 0 < minuteStep <= MAX_MINUTE_STEP ==> s == minuteStep
    ensures !(0 < minuteStep <= MAX_MINUTE_STEP) ==> s == DEFAULT_MINUTE_STEP
  {
    if minuteStep > 0 && minuteStep <= MAX_MINUTE_STEP then minuteStep else DEFAULT_MINUTE_STEP
  }

  /** `step`: the input's step in seconds, for an optional `minuteStep` prop (default 5). */
  function Step(minuteStep: Option<int>): (step: int)
    ensures 60 <= step <= 1800 && step % 60 == 0
  {
    SafeStep(minuteStep.OrElse(DEFAULT_MINUTE_STEP)) * 60
  }

  /** The step is the safe step in minutes, converted to seconds. */
  lemma StepInSeconds(minuteStep: Option<int>)
    ensures Step(minuteStep) == SafeStep(minuteStep.OrElse(DEFAULT_MINUTE_STEP)) * 60
  {}

  lemma DefaultStepIsFiveMinutes()
    ensures Step(None) == 300
  {}

  /** Out-of-range steps fall back to five minutes; in-range ones are kept. */
  lemma StepExamples()
    ensures Step(Some(0)) == 300 && Step(Some(-10)) == 300 && Step(Some(31)) == 300
    ensures Step(Some(1)) == 60 && Step(Some(15)) == 900 && Step(Some(30)) == 1800
  {}

  /** `value ?? ""`: what the input displays. */
  function DisplayValue(value: Option<string>): (shown: string)
    ensures shown == "" <==> value == None || value == Some("")
  {
    value.OrElse("")
  }

  /** What `onChange` emits for the input's new text: empty text is no time. */
  function ChangedValue(text: string): (v: Option<string>)
    ensures v == None <==> text == ""
  {
    if text != "" then Some(text) else None
  }

  /** What the "Clear time" button emits. */
  function ClearedValue(): Option<string> {
    None
  }

  /** Whatever is typed is shown back unchanged once emitted and passed in again. */
  lemma ChangeThenDisplay(text: string)
    ensures DisplayValue(ChangedValue(text)) == text
  {}

  /** A stored value survives display and change, except an empty string, which becomes no time. */
  lemma DisplayThenChange(value: Option<string>)
    ensures ChangedValue(DisplayValue(value)) == if value == Some("") then None else value
  {}

  /** Clearing shows an empty input. */
  lemma ClearShowsEmpty()
    ensures DisplayValue(ClearedValue()) == ""
  {}
}
