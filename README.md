# Self-care app: the deterministic rules, modelled in Dafny

This project models the small, deterministic rules of a self-care web app, in
which users complete goals, write reflections and log moods, and earn cents for
doing so. The rules modelled are:

- the daily streak update;
- reflection earnings, the mood check-in reward and the difficulty reward table;
- the dollar formatting of cents;
- the emoji catalogue, the picker option lists and the mood-to-emoji lookup;
- how an emoji is rendered (SVG asset or plain text);
- the back-button route table;
- the time picker's step and value mappings;
- the design-system lint script: file discovery, line location, exemptions and failure collection;
- the submit handlers of the sign-up and reset-password forms.

Each source file becomes one module:

| module | file | form |
|---|---|---|
| `Streak` | streak.dfy | functions and lemmas. The clock is a parameter (`Clock`, or `today`/`yesterday` strings). |
| `WritingPrompts` | writing_prompts.dfy | functions. Shuffling is a permutation `order` passed in. |
| `Currency` | currency.dfy | functions, plus a parser used only to state the round trip. |
| `Moods`, `Emoji`, `FluentEmoji` | moods.dfy, emoji.dfy, fluent_emoji.dfy | constant tables, lookups and their lemmas. |
| `EmojiConsistency` | emoji_consistency.dfy | lemmas across the three emoji tables. |
| `BackButton`, `TimePicker` | back_button.dfy, time_picker.dfy | functions and lemmas. |
| `DesignLint` | design_lint.dfy | see below. |
| `SignUp`, `ResetPassword` | signup.dfy, reset_password.dfy | see below. |
| `Text`, `StringOrder`, `Passwords`, `Wrappers` | text.dfy, string_order.dfy, passwords.dfy, wrappers.dfy | shared helpers (see below). |

In `DesignLint`:

- The pure helpers are functions.
- The nested loops of `main` are methods, each proved equal to a specification function (`Failures`, `RuleFailures`, `MatchFailures`).
- The directory walk is a recursive function over a tree of entries.

In `SignUp` and `ResetPassword`, each form is a class whose fields are the component state (`email`, `password`, `confirmPassword`, `error`, `loading`) plus a record of the outside calls made. The handler is split at its `await` into `Submit` and `Complete`.

The shared helpers are:

- `Text`: splitting, counting, substring search, ASCII lower-casing and JavaScript's `trim`.
- `StringOrder`: the default sort order of strings, and sorting with duplicates removed.
- `Passwords`: UTF-16 length and the form messages.
- `Wrappers`: `Option`. Its `OrElse` models `??`.

Strings are sequences of Unicode scalar values. `password.length` counts UTF-16 code units, so it is modelled by `Passwords.Utf16Length`, where an astral character counts 2. Lower-casing is ASCII-only. This is exact for the mood lookup, whose labels contain no letter that a non-ASCII character lower-cases to. It is also exact for the `/i` gradient pattern. A non-unicode `/i` regular expression also folds case for non-ASCII letters, through upper-casing, but it never maps a non-ASCII character onto an ASCII one, and the pattern's words are all ASCII.

## Model

| member | source | states |
|---|---|---|
| Streak.ComputeStreakOn | src/lib/streak.ts:5-30 | `todayStr` is today in every branch; the new streak is 1, the current streak, or the current streak plus one |
| Streak.ComputeStreak | src/lib/streak.ts:5-10 | the returned date is exactly `getToday(timezone)` for the same clock |
| Streak.GetToday | src/lib/streak.ts:43-45 | today's date string in the time zone, read from the injected clock; `ComputeStreak` returns exactly this date |
| Streak.FirstActivityStartsAtOne | src/lib/streak.ts:12-15 | a missing or empty last-active date gives streak 1 |
| Streak.SameDayKeepsStreak | src/lib/streak.ts:17-20 | activity already recorded today keeps the streak unchanged |
| Streak.ConsecutiveDayIncrements | src/lib/streak.ts:22-26 | last active yesterday (and not today) increments the streak |
| Streak.GapResetsToOne | src/lib/streak.ts:28-29 | any other non-empty date resets the streak to 1 |
| Streak.SameDayIdempotent | src/lib/streak.ts:17-20 | feeding the result back in on the same day changes nothing |
| Streak.StreakBounds | src/lib/streak.ts:12-29 | for a non-negative streak the result is at most one more, and at least 1 unless already active today |
| Streak.ConsecutiveRunAdds | src/lib/streak.ts:22-26 | a run of `n` consecutive active days after yesterday adds exactly `n` (calendar formats injective) |
| Streak.FreshRunCounts | src/lib/streak.ts:12-26 | starting from no activity, `n` consecutive days give a streak of `n` |
| Streak.SkippedDayResets | src/lib/streak.ts:28-29 | skipping a day resets to 1 |
| Streak.RepeatedDayKeeps | src/lib/streak.ts:17-20 | any number of repeated completions on one day keep the streak |
| WritingPrompts.PromptsDistinct | src/lib/writing-prompts.ts:1-22 | there are 20 pairwise distinct prompts |
| WritingPrompts.GetRandomPrompts | src/lib/writing-prompts.ts:27-30 | returns `min(count, 20)` prompts, all from the list, pairwise distinct |
| WritingPrompts.DefaultOffersFour | src/lib/writing-prompts.ts:27 | the default count gives four prompts |
| WritingPrompts.CalculateReflectionEarnings | src/lib/writing-prompts.ts:42-44 | `floor(n * 0.5)`: twice the result is at most `n` and more than `n - 2` |
| WritingPrompts.EarningsIsHalfRoundedDown | src/lib/writing-prompts.ts:32-44 | the result equals integer division of the word count by 2 |
| WritingPrompts.EarningsExamples | src/lib/writing-prompts.ts:42-44 | 0 and 1 words earn 0, 2 and 3 earn 1, 100 earn 50 |
| WritingPrompts.EarningsMonotone | src/lib/writing-prompts.ts:42-44 | more words never earn less |
| WritingPrompts.EarningsBounded | src/lib/writing-prompts.ts:42-44 | a non-negative count earns between 0 and the count |
| Currency.DigitChar | src/lib/currency.ts:5-7 | the digit character for 0-9 |
| Currency.DigitValue | src/lib/currency.ts:5-7 | the value of a digit character, inverse of `DigitChar` |
| Currency.Decimal | src/lib/currency.ts:5-7 | the decimal digits of a whole number, without leading zeros |
| Currency.DecimalRoundTrip | src/lib/currency.ts:5-7 | reading back the decimal digits gives the number |
| Currency.TwoDigits | src/lib/currency.ts:5-7 | two zero-padded digits whose value is the number |
| Currency.FormatCurrency | src/lib/currency.ts:5-7 | output is `$`, a dollar part of digits with no leading zero, `.`, and exactly two digits, with exactly one `.` in all |
| Currency.DigitsHaveNoDot | src/lib/currency.ts:5-7 | digit strings contain no `.` |
| Currency.FormatParseRoundTrip | src/lib/currency.ts:5-7 | parsing the formatted amount gives back the cents |
| Currency.FormatInjective | src/lib/currency.ts:5-7 | different amounts format differently |
| Currency.FormatExamples | src/lib/currency.ts:2-3 | 250 is "$2.50", 5 is "$0.05", 0 is "$0.00" |
| Currency.DifficultyReward | src/lib/currency.ts:10-16 | every difficulty has a key in the reward table; easy pays 2 cents, medium 5 and hard 10 |
| Currency.DifficultyKeysExact | src/lib/currency.ts:10-16 | the table has exactly the three difficulty keys, one per difficulty |
| Currency.DifficultyRewardsOrdered | src/lib/currency.ts:10-14 | easy 2, medium 5, hard 10, positive and strictly increasing |
| Moods.FindMood | src/lib/moods.ts:15-17 | no result exactly when no label matches ignoring case; a result is a matching entry of the list |
| Moods.GetMoodEmoji | src/lib/moods.ts:13-19 | the result is the neutral face or one of the six mood emoji |
| Moods.LabelsDistinctIgnoringCase | src/lib/moods.ts:1-8 | the six labels differ pairwise even after lower-casing |
| Moods.MissingMoodIsNeutral | src/lib/moods.ts:14 | null and the empty string give the neutral face |
| Moods.MatchingLabelGivesEmoji | src/lib/moods.ts:15-18 | an input equal to a label ignoring case gives that mood's emoji |
| Moods.UnknownMoodIsNeutral | src/lib/moods.ts:18 | an input matching no label gives the neutral face |
| Moods.LookupExamples | src/lib/moods.ts:13-19 | "happy" and "HAPPY" both give the smiling face |
| Moods.FindMoodIgnoresCase | src/lib/moods.ts:15-17 | the search depends only on the lower-cased input |
| Moods.CaseInsensitive | src/lib/moods.ts:13-19 | inputs equal up to case give the same emoji |
| Emoji.EmojiOf | src/lib/emoji.ts:1-20 | every catalogue value is a single code point |
| Emoji.EmojiValuesDistinct | src/lib/emoji.ts:1-20 | the 18 catalogue values are pairwise distinct |
| Emoji.AllNamesComplete | src/lib/emoji.ts:1-20 | the name list covers the whole catalogue |
| Emoji.GoalOptionsWellFormed | src/lib/emoji.ts:22-31 | 8 goal options, all catalogue values, no duplicates |
| Emoji.RewardOptionsWellFormed | src/lib/emoji.ts:33-41 | 7 reward options, all catalogue values, no duplicates |
| Emoji.ValueOfName | src/lib/emoji.ts:1-20 | a value of some catalogue name is a catalogue value |
| Emoji.NeutralNotOffered | src/lib/emoji.ts:19-41 | the neutral face is in neither option list |
| EmojiConsistency.NeutralIsMoodFallback | src/lib/emoji.ts:19 | the catalogue's neutral face is the mood lookup's fallback |
| EmojiConsistency.MoodEmojiFromCatalogue | src/lib/emoji.ts:9-14 | each mood's emoji is the catalogue value of the same name |
| EmojiConsistency.GoalOptionsHaveAssets | src/components/ui/fluent-emoji.tsx:5-23 | every goal picker option has an SVG asset |
| EmojiConsistency.RewardOptionsHaveAssets | src/components/ui/fluent-emoji.tsx:5-23 | every reward picker option has an SVG asset |
| EmojiConsistency.MoodsHaveAssets | src/components/ui/fluent-emoji.tsx:5-23 | every mood emoji has an SVG asset |
| EmojiConsistency.MoodRendering | src/components/ui/fluent-emoji.tsx:40-64 | a mood emoji renders as an image of the given size; the fallback face renders as text |
| FluentEmoji.Render | src/components/ui/fluent-emoji.tsx:33-64 | image width and height, or text font size, equal `size`, which defaults to 24 |
| FluentEmoji.AssetFor | src/components/ui/fluent-emoji.tsx:40 | a file is found exactly for the map's keys, and a found file name is never empty |
| FluentEmoji.AssetNamesNonEmpty | src/components/ui/fluent-emoji.tsx:5-23 | every asset file name is longer than the four characters of ".svg", so a mapped emoji always takes the image branch |
| FluentEmoji.MappedEmojiIsImage | src/components/ui/fluent-emoji.tsx:40-61 | a mapped emoji renders as an image at "/fluent-emoji/" + file, alt `label ?? emoji` |
| FluentEmoji.UnmappedEmojiIsText | src/components/ui/fluent-emoji.tsx:42-52 | an unmapped emoji renders as text `fallback ?? emoji`, labelled `label ?? fallback ?? emoji` |
| FluentEmoji.ImageAltIgnoresFallback | src/components/ui/fluent-emoji.tsx:55-64 | for a mapped emoji the fallback makes no difference |
| FluentEmoji.AssetMapByName | src/components/ui/fluent-emoji.tsx:5-23 | looking up a catalogue emoji in the asset map gives that name's file |
| FluentEmoji.NeutralHasNoAsset | src/components/ui/fluent-emoji.tsx:5-23 | the neutral face has no asset |
| FluentEmoji.AssetKeysAreCatalogue | src/components/ui/fluent-emoji.tsx:5-23 | every key of the asset map is a catalogue value other than neutral |
| FluentEmoji.AssetFileInvertible | src/components/ui/fluent-emoji.tsx:6-22 | the file name determines the emoji name |
| FluentEmoji.AssetMapInjective | src/components/ui/fluent-emoji.tsx:6-22 | different emoji have different asset files |
| BackButton.MatchesGoalPathIff | src/components/nav/back-button.tsx:9-10 | a path matches the goal patterns exactly when it is "/goals/", one non-empty segment without "/", then the suffix |
| BackButton.GoalPathParts | src/components/nav/back-button.tsx:9-10 | a goal path built from a segment matches its own pattern |
| BackButton.MatchesGoalPath | src/components/nav/back-button.tsx:9-10 | the two goal regexes, read off the path by slicing; `MatchesGoalPathIff` states what they accept |
| BackButton.DetailBack | src/components/nav/back-button.tsx:12 | "/me/goals" exactly for `from=me`, "/goals" exactly for `from=goals`, "/home" for any other or a missing `from` |
| BackButton.GetParam | src/components/nav/back-button.tsx:11 | a found value belongs to the first pair with the key; none is found only when no pair has the key |
| BackButton.GetBack | src/components/nav/back-button.tsx:7-20 | a result is always one of "/goals", "/me/goals", "/home", "/reflect", "/me" |
| BackButton.NewGoalLeadsToGoals | src/components/nav/back-button.tsx:8 | "/goals/new" goes back to "/goals" whatever the parameters, though it also fits the detail pattern |
| BackButton.EditLeadsToGoals | src/components/nav/back-button.tsx:9 | an edit page goes back to "/goals" |
| BackButton.DetailLeadsBackToOrigin | src/components/nav/back-button.tsx:10-13 | a detail or view page, including "/goals/new/view", goes back according to the first `from` parameter |
| BackButton.DetailIsNotEdit | src/components/nav/back-button.tsx:9-10 | a detail path never matches the edit pattern |
| BackButton.DetailExamples | src/components/nav/back-button.tsx:10-13 | `from=me` gives "/me/goals", `from=goals` gives "/goals", anything else gives "/home"; with two `from` values the first wins |
| BackButton.NotUnderGoals | src/components/nav/back-button.tsx:9-10 | paths not starting "/g" match no goal pattern |
| BackButton.FixedRoute | src/components/nav/back-button.tsx:14-19 | such paths are decided by the fixed route list |
| BackButton.StaticRoutes | src/components/nav/back-button.tsx:14-18 | the reflect pages go back to "/reflect" and the me pages to "/me" |
| BackButton.NoBackButton | src/components/nav/back-button.tsx:19 | "/goals", "/goals/", "/goals/a/b" and "/home" have no back target |
| BackButton.HasBackButtonIff | src/components/nav/back-button.tsx:7-20 | a back target exists exactly for the listed paths and patterns |
| BackButton.ParamsOnlyForDetail | src/components/nav/back-button.tsx:10-13 | search parameters change the result only on detail pages |
| TimePicker.SafeStep | src/components/ui/time-picker.tsx:20 | a step in (0, 30] is kept and anything else becomes 5 |
| TimePicker.Step | src/components/ui/time-picker.tsx:17-21 | the step lies in [60, 1800] seconds and is a whole number of minutes |
| TimePicker.StepInSeconds | src/components/ui/time-picker.tsx:21 | the step is the safe step times 60 |
| TimePicker.DefaultStepIsFiveMinutes | src/components/ui/time-picker.tsx:17-21 | no `minuteStep` gives 300 seconds |
| TimePicker.StepExamples | src/components/ui/time-picker.tsx:20-21 | 0, -10 and 31 fall back to 300; 1, 15 and 30 give 60, 900 and 1800 |
| TimePicker.DisplayValue | src/components/ui/time-picker.tsx:28 | the input shows empty text exactly for no value or an empty value |
| TimePicker.ChangedValue | src/components/ui/time-picker.tsx:30-32 | empty text is emitted as null, anything else as itself |
| TimePicker.ClearedValue | src/components/ui/time-picker.tsx:38 | the clear button emits null; `ClearShowsEmpty` states that it displays as empty |
| TimePicker.ChangeThenDisplay | src/components/ui/time-picker.tsx:28-32 | emitted text is displayed back unchanged |
| TimePicker.DisplayThenChange | src/components/ui/time-picker.tsx:28-32 | a stored value survives a display-change cycle, except "" which becomes null |
| TimePicker.ClearShowsEmpty | src/components/ui/time-picker.tsx:35-38 | clearing emits null, which displays as empty |
| DesignLint.SliceEnd | scripts/lint-design-system.mjs:66 | where `slice(0, index)` stops: negative indexes count from the end, and both ends clamp |
| DesignLint.FindLineNumber | scripts/lint-design-system.mjs:65-67 | the line number is one more than the newlines before the index |
| DesignLint.LineNumberBounds | scripts/lint-design-system.mjs:65-67 | the line number is between 1 and 1 plus the newlines in the source |
| DesignLint.LineNumberMonotone | scripts/lint-design-system.mjs:65-67 | a later position never gets an earlier line |
| DesignLint.LineAt | scripts/lint-design-system.mjs:96 | the reported line holds no newline; an out-of-range line number gives "" |
| DesignLint.LineOfMatch | scripts/lint-design-system.mjs:95-96 | the reported line is the trimmed line containing the match start |
| DesignLint.GradientExemptionIff | scripts/lint-design-system.mjs:69-71 | a path is exempt exactly when "cat", "special", "challenge" or "milestone" occurs in it ignoring ASCII case |
| DesignLint.ButtonSkipIff | scripts/lint-design-system.mjs:73-75 | a line is skipped exactly when "interactive-icon", "<Button" or "<IconButton" occurs in it |
| DesignLint.ShouldAllowGradient | scripts/lint-design-system.mjs:69-71 | the case-insensitive word test on the path; `GradientExemptionIff` characterises it |
| DesignLint.ShouldSkipRawButtonMatch | scripts/lint-design-system.mjs:73-75 | the three `includes` tests on the line; `ButtonSkipIff` characterises it |
| DesignLint.GradientExemptionExamples | scripts/lint-design-system.mjs:69-71 | "CatCard" is exempt, and so is "notifications", through its inner "cat" |
| DesignLint.IsAllowed | scripts/lint-design-system.mjs:24-28 | allowed exactly when the allowlist has entries for the rule and file and one of them matches the line |
| DesignLint.AnyAllowsIff | scripts/lint-design-system.mjs:27 | `some` holds exactly when some entry's pattern matches |
| DesignLint.FailureAt | scripts/lint-design-system.mjs:95-102 | a failure records the rule, the file, the line number of the match and that line's text |
| DesignLint.CollectMatchFailures | scripts/lint-design-system.mjs:94-103 | the while loop pushes exactly the matches not exempted by the gradient, button or allowlist test, in match order |
| DesignLint.CollectFileFailures | scripts/lint-design-system.mjs:91-104 | the rule loop collects each rule's failures in rule order, each scan starting at the beginning |
| DesignLint.CollectFailures | scripts/lint-design-system.mjs:85-105 | the file loop collects each file's failures in file order |
| DesignLint.MatchFailuresMembers | scripts/lint-design-system.mjs:94-103 | a failure is collected for a rule exactly when one of its matches is reported as it |
| DesignLint.RuleFailuresMembers | scripts/lint-design-system.mjs:91-104 | a failure is collected for a file exactly when one of the rules collected it |
| DesignLint.FailuresMembers | scripts/lint-design-system.mjs:87-105 | a failure is collected exactly when one of the files collected it |
| DesignLint.ReportedIff | scripts/lint-design-system.mjs:87-105 | the failures are exactly the non-exempt matches of any rule in any file |
| DesignLint.PassesIff | scripts/lint-design-system.mjs:107-117 | the lint passes exactly when no match anywhere is reported |
| DesignLint.WalkEntriesSound | scripts/lint-design-system.mjs:39-63 | every path found in a directory is a ".tsx" file below it, outside the excluded prefix |
| DesignLint.WalkEntrySound | scripts/lint-design-system.mjs:48-59 | the same for one entry |
| DesignLint.ListedFileFound | scripts/lint-design-system.mjs:52-58 | a listed ".tsx" file that is not excluded is found |
| DesignLint.InTreeBelow | scripts/lint-design-system.mjs:49-50 | every file of a directory's tree has a path below that directory |
| DesignLint.TsxPathHasTsxName | scripts/lint-design-system.mjs:58 | a file whose path ends in ".tsx" has a name ending in ".tsx" |
| DesignLint.PrefixNotExcluded | scripts/lint-design-system.mjs:52 | the directories above a path that is not excluded are not excluded either |
| DesignLint.TreeFileFound | scripts/lint-design-system.mjs:39-63 | every ".tsx" file at any depth of the readable tree is found unless its path is excluded |
| DesignLint.FoundIsInTree | scripts/lint-design-system.mjs:39-63 | every path found is the path of a file in the readable tree |
| DesignLint.WalkEntriesIff | scripts/lint-design-system.mjs:39-63 | a path is found exactly when it is a file of the readable tree, ends in ".tsx" and is not excluded |
| DesignLint.ExcludedEntrySkipped | scripts/lint-design-system.mjs:52-54 | nothing is found under an excluded entry, directory or file |
| DesignLint.WalkEntries | scripts/lint-design-system.mjs:39-63 | `walk`: the entries' results flattened in listing order; `WalkEntriesIff` characterises what it finds |
| DesignLint.WalkEntry | scripts/lint-design-system.mjs:48-59 | one entry: excluded paths give nothing, directories are walked, ".tsx" files are kept; `WalkEntrySound` and `ExcludedEntrySkipped` characterise it |
| DesignLint.Walk | scripts/lint-design-system.mjs:39-46 | a directory that cannot be read gives no files |
| DesignLint.ScanFiles | scripts/lint-design-system.mjs:80-83 | the files to lint are sorted, and are exactly the paths found under the targets |
| DesignLint.FoundFilesSound | scripts/lint-design-system.mjs:5-10 | every found path is a ".tsx" file under one of the targets, outside "src/components/ui" |
| DesignLint.ScannedFilesWellFormed | scripts/lint-design-system.mjs:80-83 | the files to lint are distinct and all satisfy the walk's filter |
| DesignLint.Lint | scripts/lint-design-system.mjs:77-105 | the run reports exactly the failures of the scanned files |
| StringOrder.LessIrreflexive | scripts/lint-design-system.mjs:83 | no string sorts before itself |
| StringOrder.LessTransitive | scripts/lint-design-system.mjs:83 | the sort order is transitive |
| StringOrder.LessTotal | scripts/lint-design-system.mjs:83 | any two different strings are ordered one way or the other |
| StringOrder.Insert | scripts/lint-design-system.mjs:83 | inserting into a sorted list keeps it sorted and adds exactly that string |
| StringOrder.InsertFront | scripts/lint-design-system.mjs:83 | a string smaller than the head may be put first |
| StringOrder.SortedUnique | scripts/lint-design-system.mjs:83 | `[...new Set(xs)].sort()` is strictly sorted and holds exactly the strings of `xs` |
| StringOrder.SortedHasNoDuplicates | scripts/lint-design-system.mjs:83 | a strictly sorted list has no duplicates |
| Text.ContainsIff | scripts/lint-design-system.mjs:74 | `includes` holds exactly when the word occurs at some position |
| Text.SplitShape | scripts/lint-design-system.mjs:66 | `split` gives one piece more than there are separators, and no piece contains one |
| Text.JoinSplit | scripts/lint-design-system.mjs:66 | joining the pieces with the separator gives back the string |
| Text.SplitConcat | scripts/lint-design-system.mjs:95-96 | splitting a concatenation merges the last piece of the first part with the first piece of the second |
| Text.TrimStart | scripts/lint-design-system.mjs:96 | removes a prefix made only of white space, and the rest does not start with white space |
| Text.TrimEnd | scripts/lint-design-system.mjs:96 | removes a suffix made only of white space, and the rest does not end with white space |
| Text.Trim | scripts/lint-design-system.mjs:96 | `trim` keeps `s[i..j]` where everything before `i` and from `j` on is white space, and the kept part neither starts nor ends with white space |
| Text.TrimIdempotent | scripts/lint-design-system.mjs:96 | trimming an already trimmed line changes nothing |
| Text.CountPrefixMonotone | scripts/lint-design-system.mjs:66 | a longer prefix holds at least as many newlines |
| Passwords.Utf16Length | src/app/signup/page.tsx:28 | the JavaScript length is between the character count and twice it, and equals it for BMP text |
| Passwords.Utf16LengthConcat | src/app/signup/page.tsx:28 | lengths add up over concatenation |
| Passwords.LengthExamples | src/app/reset-password/page.tsx:20 | three emoji pass the length check; five letters do not |
| SignUp.SignUpCheck | src/app/signup/page.tsx:22-32 | no message exactly for equal passwords of length at least 6; a mismatch is reported whenever the passwords differ, the length message only when they are equal |
| SignUp.SignUpForm.Submit | src/app/signup/page.tsx:17-48 | a failed check shows its message, with loading false and no request; otherwise error is cleared, loading is set, and one request is sent with the email, the password and the time zone (or "UTC") |
| SignUp.SignUpForm.Complete | src/app/signup/page.tsx:50-56 | an auth error is shown with loading false; success navigates to "/home" and refreshes, still loading |
| ResetPassword.ResetCheck | src/app/reset-password/page.tsx:20-28 | no message exactly for equal passwords of length at least 6; the length message whenever the password is short, the mismatch only otherwise |
| ResetPassword.ResetPasswordForm.Submit | src/app/reset-password/page.tsx:16-32 | a failed check shows its message and leaves loading untouched, with no update; otherwise loading is set and one update is sent with the password |
| ResetPassword.ResetPasswordForm.Complete | src/app/reset-password/page.tsx:34-40 | an auth error is shown with loading false; success navigates to "/home" and refreshes |
| ResetPassword.SameAcceptedPairs | src/app/reset-password/page.tsx:20-28 | both forms accept exactly the same password pairs |
| ResetPassword.MessagesDifferOnlyWhenBothFail | src/app/reset-password/page.tsx:20-28 | the two forms report differently exactly for a short, mismatched pair: reset reports the length, sign-up the mismatch |

## Left out

- The clock and time zones are not modelled. This covers `toLocaleDateString`, IANA zones and how "yesterday" is computed across DST changes (src/lib/streak.ts:32-40). Today and yesterday are parameters.
- Randomness is not modelled. `Math.random` inside `sort` is replaced by an arbitrary permutation of the prompts.
- WritingPrompts.GetRandomPrompts: a negative `count`, which `slice` counts from the end, is not modelled; the count is a natural number.
- JavaScript numbers are modelled as unbounded integers. Fractional, NaN or very large word counts, cents and minute steps are not modelled.
- Currency.FormatCurrency: models non-negative cents only; negative amounts are excluded. Amounts of 2^46 dollars (7036874417766400 cents) or more are printed exactly here, while the source's double `cents / 100` can then be off by half a cent or more, so `toFixed(2)` can show the wrong cents (8000000000000001 cents would print as "$80000000000000.02").
- The Supabase calls (`signUp`, `updateUser`) and the router are not modelled. They appear as a recorded request list, a recorded navigation list and an injected error message.
- Browser form validation (`required` fields, the email input type) runs before the handlers and is not modelled. Nor are overlapping submissions: `Submit` requires `!loading`, because the submit button is disabled while loading.
- The signup time zone detection is a parameter, `None` when `Intl` throws.
- The lint script's file system is a tree of entries passed in. Symbolic links are files here, as `isDirectory` reports them. Reading a file is a function and cannot fail.
- The lint's regular-expression engine is not modelled. Each rule's matches are a list of start positions passed in. Each allowlist pattern's test against a line is a predicate passed in. An invalid pattern, which would throw, is not modelled.
- The lint's allowlist is a map from rule name to a map from file path to pattern list. Loading it from JSON, other JSON shapes and keys inherited from `Object.prototype` are not modelled.
- The lint's console output and `process.exit` are not modelled. `PassesIff` states when the run passes.
- StringOrder.Less: compares Unicode code points. JavaScript's `sort` compares UTF-16 code units, which orders astral characters differently from some BMP characters above U+D7FF. File paths here are ASCII.
- Rendering and styling (`className`, `cn`, React elements) are not modelled. FluentEmoji is a value `Image(src, alt, width, height)` or `Glyph(content, ariaLabel, fontSize)`.
- Emoji keys inherited from `Object.prototype` are not modelled. In JavaScript, a lookup of "constructor" in `EMOJI_ASSET_MAP` would be truthy; the model's map has only the 17 listed keys.
- The goal ledger, goal completion, reward redemption and longest-streak logic are not part of this model: they live in server actions such as `completeGoal` and in the database, which are not modelled here.
- `src/lib/perf.ts`, the query helpers and the other pages and components are not part of this model.
