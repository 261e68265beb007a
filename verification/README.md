# moco4timew core, modelled in Dafny

moco4timew is a Timewarrior extension. Timewarrior hands it an export made of
two parts: a configuration block, then a blank line, then the tracked
intervals as a JSON array. moco4timew turns those intervals into Moco
activities and books them.

This project models the pure core of that pipeline:

- **Timestamps.** `formatISOString` turns the compact form `20250228T063000Z`
  into the extended form `2025-02-28T06:30:00Z`. The Date arithmetic built on
  it is modelled with a proleptic Gregorian calendar.
- **`TimewarriorParser`.** Splits the export into its two sections. It parses
  the configuration block, including flags and dotted keys. It turns each
  JSON interval into an interval whose first tag is read as
  `project: description`.
- **`SearchUtil`.** `fuzzyRank` rates candidates by a summed similarity and
  sorts them stably, best first. `fuzzyFind` returns the first hit of a
  threshold search.
- **`IntervalTransformer`, current revision.** Covers validation, the project
  and task lookup, and the date and duration. The no-bill tags mark an
  activity not billable, and an interval whose project has no active task is
  skipped. `summarize` merges activities that share a date, project and
  description.
- **`IntervalTransformer`, earlier revision.** Differs from the current
  revision in these ways:
  - the fuzzy threshold is an option;
  - the task is searched by the first no-bill tag;
  - a missing task falls back to the project's first task;
  - nothing is skipped.

Files:

| file | module | models |
|---|---|---|
| `wrappers.dfy` | `Wrappers` | `Option` and `Result` |
| `failures.dfy` | `Failures` | one error per `throw` site |
| `text.dfy` | `Text` | `split`, `join`, `indexOf`, `trim`, `toLowerCase` |
| `timestamp.dfy` | `Timestamp` | `formatISOString`, Date parsing and epoch seconds |
| `parser.dfy` | `TimewarriorParser` | `src/timewarrior/parser.ts` |
| `search.dfy` | `Search` | `src/utils/search_util.ts` |
| `activity.dfy` | `Activity` | the steps both transformer revisions share |
| `transformer.dfy` | `Transformer` | `src/utils/interval_transformer.ts` without `summarize` |
| `summary.dfy` | `Summary` | `summarize` |
| `legacy_transformer.dfy` | `LegacyTransformer` | `src/interval_transformer.ts` |

Every operation is a pure function. A thrown exception becomes a `Failure`
carrying an `Error`. Three things become parameters:

- `JSON.parse` is a `JsonDecoder`;
- the `fuzzySearch` library is a `Similarity`;
- the `picoSearch` library is a `Picker`.

Every property holds for every decoder and every similarity. Most hold for
every picker too. The exceptions need a found element to be one of the
candidates, so they require `DrawsFrom` of the picker: `FindIsCandidate`,
`FoundProjectInCatalog`, `FoundTaskIsActive` and both `ActivityFields`.

Where the two disagree, the model follows the code rather than the
documentation:

- **Input without a blank line is an error.** `input.split("\n\n")` then
  yields one part. `parseIntervals(undefined)` throws on `.trim()`, so the
  input is not read as "no intervals".
- **The description may trim to empty.** The pattern
  `^([^:]+):\s*(.+)$` matches `proj:  `, with a description of one space.
  That description trims to `""`, so a match does not guarantee a non-empty
  description.
- **A dotted key that walks through a string or `true` fails.** The
  assignment `current[part] = value` on a primitive is a TypeError in a
  module, which is strict mode. The model returns a `Failure` here rather
  than forbidding such input.
- **The first tag is dropped even when it does not match.** A parser test
  expects the tags of an interval whose first tag is `work` to keep `work`.
  The code drops the first tag unconditionally, and the model does too.

## Model

Helpers without a row of their own (`Search.PairScore`, `Search.Rate`,
`TimewarriorParser.ApplyLines`, `Summary.MergeAll` and similar) are covered by
the rows of the members whose contracts mention them.

| member | source | states |
|---|---|---|
| Timestamp.FormatIso | src/utils.ts:2-11 | The output length follows from how far the input reaches, and the output always ends in `Z`. For inputs of at least 15 characters it has the extended shape, and each digit group equals the corresponding slice of the input. |
| Timestamp.EmptyInput | src/utils.ts:2-11 | The function is total and slicing clamps. Short inputs give short groups, so the separators are no longer at fixed positions: `""` becomes `--T::Z`. |
| Timestamp.CompactRoundTrip | src/utils.ts:2-11 | Dropping the separators from the reformatted string gives back the input's digit positions 0-7 and 9-14. |
| Timestamp.ExtendedRoundTrip | src/utils.ts:2-11 | Every extended timestamp is the reformatting of its compact form, so the conversion is onto the extended shape. |
| Timestamp.IgnoredPositions | src/utils.ts:2-11 | Two inputs that agree on positions 0-7 and 9-14 reformat identically: characters 8, 15 and later are ignored. |
| Timestamp.PadNumber | src/utils/interval_transformer.ts:117-119 | Reading a digit group and printing it back zero-padded to its width gives the same digits. |
| Timestamp.ParseThroughFormat | src/utils/interval_transformer.ts:193-198 | `new Date(formatISOString(s))` is valid exactly when the compact digit groups of `s` name a valid date and time, and it then denotes that date and time. |
| Timestamp.DateStringOfParse | src/utils/interval_transformer.ts:117-119 | The date part of `toISOString()` of a parsed timestamp is its first ten characters. |
| Timestamp.YearStep | src/utils/interval_transformer.ts:193-204 | The closed form for the days before a year advances by exactly that year's length, leap years included. |
| Timestamp.WholeYear | src/utils/interval_transformer.ts:193-204 | The twelve month lengths add up to the year's length. |
| Timestamp.DayOrder | src/utils/interval_transformer.ts:193-204 | An earlier year, or an earlier month in the same year, gives an earlier day number, whatever the days. |
| Timestamp.InstantOrder | src/utils/interval_transformer.ts:200-204 | Epoch seconds order valid instants exactly as their fields do lexicographically (`end < start`), and they are equal only for equal instants. |
| Text.Split | src/timewarrior/parser.ts:14 | `split` yields at least one piece, no piece contains the separator, and joining the pieces with the separator gives back the input. |
| Text.SplitLeftmost | src/timewarrior/parser.ts:14 | Every cut is at the leftmost remaining separator: each piece but the last, followed by the separator, first meets it at its own end. So `"\n\n\n"` splits on `"\n\n"` into `""` and `"\n"`. |
| Text.SplitHead | src/timewarrior/parser.ts:50 | A piece without the one-character separator, followed by it, is split off first and the rest is split on its own. |
| Text.SplitFirst | src/timewarrior/parser.ts:34-35 | `[key, ...rest] = line.split(": ")` then `rest.join(": ")`: the key is the text before the first separator and the value is everything after it. Without a separator the key is the whole line and the value is empty. |
| Text.Find | src/timewarrior/parser.ts:14 | Returns the leftmost occurrence of the separator, or none when it occurs nowhere. |
| Text.Trim | src/timewarrior/parser.ts:72 | The result is a middle slice of the input between an all-whitespace prefix and an all-whitespace suffix. It is empty exactly for all-whitespace input, and otherwise starts and ends with a non-whitespace character. |
| Text.TrimStart | src/timewarrior/parser.ts:97 | The result is a suffix of the input, and what was removed is all whitespace. |
| Text.TrimEnd | src/timewarrior/parser.ts:97 | The result is a prefix of the input, and what was removed is all whitespace. |
| Text.Lower | src/timewarrior/parser.ts:97 | Keeps the length, maps each upper-case ASCII letter to the letter 32 code points above it (its lower-case form), and leaves every other character alone. |
| TimewarriorParser.SetPath | src/timewarrior/parser.ts:49-60 | A dotted assignment that succeeds makes the full path read back the value. It adds only the head key, and every other top-level key keeps its value. |
| TimewarriorParser.SetPathFailsIff | src/timewarrior/parser.ts:53-59 | The assignment throws exactly when the walk meets a string or `true` before the last part. |
| TimewarriorParser.SetPathKeepsOthers | src/timewarrior/parser.ts:49-60 | Every path that branches off the assigned one reads the same before and after. |
| TimewarriorParser.ApplyLine | src/timewarrior/parser.ts:33-47 | A line without `": "` changes nothing, and no line removes a key. |
| TimewarriorParser.DottedLine | src/timewarrior/parser.ts:49-60 | Any other line `key: v` with a non-empty key and value is the assignment of `v` along `key.split(".")`, and fails exactly when that assignment does. |
| TimewarriorParser.NestedKeyConfig | src/timewarrior/parser.ts:27-64 | A one-line configuration `a.b.c: v` parses, reads back `v` at the path `a`, `b`, `c`, and keeps both flags false. |
| TimewarriorParser.ReportStartConfig | tests/timewarrior/parser_test.ts:5-30 | `temp.report.start: 20240228T000000Z` stores the date under `temp`, `report`, `start`. |
| TimewarriorParser.SkippedLine | src/timewarrior/parser.ts:34-37 | A line with an empty key or value leaves the configuration unchanged. That is a line with no `": "`, one that starts with it, or one whose first `": "` ends the line. |
| TimewarriorParser.KeyValueSplit | src/timewarrior/parser.ts:34-35 | Splitting `key + ": " + value` on the first separator recovers the key and the whole value, even when the value contains `": "`. |
| TimewarriorParser.DebugLine | src/timewarrior/parser.ts:39-42 | `debug: v` with a non-empty `v` sets the flag, true exactly when `v` is `"1"`. |
| TimewarriorParser.ParseConfig | src/timewarrior/parser.ts:27-64 | A parsed configuration always has both the `debug` and the `verbose` entry. |
| TimewarriorParser.ConfigFlags | src/timewarrior/parser.ts:28-47 | Each flag is false by default, and otherwise is what the last line naming it says (true for `"1"`), provided no dotted key writes below it. |
| TimewarriorParser.ParseProjectTag | src/timewarrior/parser.ts:91-98 | The project is empty exactly when the pattern does not match, and then the description is empty too. |
| TimewarriorParser.ProjectTagMatches | src/timewarrior/parser.ts:92-95 | The project is non-empty exactly when `^([^:]+):\s*(.+)$` matches the tag somewhere. |
| TimewarriorParser.ProjectTagGroups | src/timewarrior/parser.ts:92-97 | On a match, the pair is the lowercased group 1 and the trimmed group 2 of the greedy backtracking match. |
| TimewarriorParser.MatchAtFirstColon | src/timewarrior/parser.ts:92 | Group 1 of any match ends at the tag's first colon. |
| TimewarriorParser.ToInterval | src/timewarrior/parser.ts:76-88 | Converting an interval fails exactly when it has no tags, because `parseProjectTag(undefined)` throws. Otherwise it keeps id, start and end, takes project and description from the first tag, and keeps the remaining tags in order. |
| TimewarriorParser.ToIntervals | src/timewarrior/parser.ts:76-88 | The map fails exactly when some interval has no tags. Otherwise it keeps length and order and converts each element on its own. |
| TimewarriorParser.ParseIntervals | src/timewarrior/parser.ts:71-89 | A blank section gives no intervals. Otherwise malformed JSON is an error, and well-formed JSON is mapped. |
| TimewarriorParser.Parse | src/timewarrior/parser.ts:13-20 | A success needs a blank line. Without one, a configuration error is reported first, and otherwise the missing interval section is the error. |
| TimewarriorParser.ParseSections | src/timewarrior/parser.ts:13-20 | The configuration is the text before the first blank line and the intervals are everything after it, whatever that section ends with. |
| TimewarriorParser.ParseDropsTail | src/timewarrior/parser.ts:14 | Anything after a second blank line is ignored. |
| Search.Scores | src/utils/search_util.ts:49-56 | The `flatMap` yields one score per (key, query) pair. |
| Search.ScoresArePairScores | src/utils/search_util.ts:49-56 | Every score is the similarity of some query against some key's value, and 0 where the library reports no match. |
| Search.ReduceIsSum | src/utils/search_util.ts:57 | `reduce((p, n) => p + n)` over a non-empty list is its sum. |
| Search.ScoresSum | src/utils/search_util.ts:49-57 | The sum of the flattened scores equals the double sum over keys and queries. |
| Search.RatingIsPairSum | src/utils/search_util.ts:47-60 | A candidate's rating is the double sum of its pair scores. |
| Search.SortByRating | src/utils/search_util.ts:61 | Sorting keeps the length and is a permutation. |
| Search.SortSorted | src/utils/search_util.ts:61 | `toSorted((a, b) => b.rating - a.rating)` orders by descending rating. |
| Search.SortStable | src/utils/search_util.ts:61 | Entries with equal rating keep their relative order. |
| Search.SortConstant | src/utils/search_util.ts:61 | A list in which all ratings are equal is left as it is. |
| Search.FuzzyRank | src/utils/search_util.ts:37-62 | No candidates gives no ranking. Otherwise it throws exactly when there are no (key, query) pairs to reduce. On success the result is a sorted permutation of the rated candidates, stable on equal ratings. |
| Search.RankIsPermutation | src/utils/search_util.ts:47-61 | The ranked things are exactly the candidates, each as often as given. |
| Search.RankHead | src/utils/search_util.ts:47-61 | The head of the ranking is the first candidate with the highest rating. |
| Search.NoMatchesKeepOrder | src/utils/search_util.ts:47-61 | When nothing matches, every rating is 0 and the candidates keep their order. |
| Search.FuzzyFind | src/utils/search_util.ts:15-35 | No candidates gives nothing, and otherwise the first hit of the threshold search over the lowercased keys, or nothing when there is no hit. |
| Search.FindIsCandidate | src/utils/search_util.ts:15-35 | What is found is one of the candidates, provided the search library only returns its inputs. |
| Activity.ValidateInterval | src/utils/interval_transformer.ts:230-242 | Passes exactly when start, end and project are non-empty. Missing dates are reported before a missing project name. |
| Activity.FindProject | src/utils/interval_transformer.ts:137-154 | Succeeds exactly when the search finds a project with tasks. No hit is `ProjectNotFound`, a hit without tasks is `ProjectHasNoTasks` with its id, and an empty catalogue never succeeds. |
| Activity.FoundProjectInCatalog | src/utils/interval_transformer.ts:137-154 | A found project comes from the catalogue and has at least one task. |
| Activity.ActiveTasks | src/utils/interval_transformer.ts:173 | Every active task is kept and only active tasks are kept. |
| Activity.ActiveTasksAppend | src/utils/interval_transformer.ts:173 | Filtering a concatenation concatenates the filtered parts, so order and repetitions are kept. |
| Activity.ActiveTasksSingle | src/utils/interval_transformer.ts:173 | A single task is kept exactly when it is active. |
| Activity.ActivityDate | src/utils/interval_transformer.ts:117-119 | The date succeeds exactly when the start parses; otherwise it fails with `Invalid time value`. The date is `YYYY-MM-DD` taken from the start's digit groups. |
| Activity.CalculateSeconds | src/utils/interval_transformer.ts:191-208 | Succeeds exactly when both timestamps parse and the end is not before the start. The result is non-negative and zero exactly for equal instants. An unparseable timestamp is `Invalid date format`, and an end before the start is `End date is before start date`. |
| Activity.SecondsAreGap | src/utils/interval_transformer.ts:204 | Start plus duration is the end, in epoch seconds. |
| Activity.HalfHour | src/utils/interval_transformer.ts:191-208 | 06:30 to 07:00 on 2025-02-28 is 1800 seconds. |
| Activity.Billable | src/utils/interval_transformer.ts:124-126 | `billable` is set, and set to false, exactly when some tag is a no-bill tag. |
| Transformer.SearchTerms | src/utils/interval_transformer.ts:166-171 | The terms are never empty and never `work` or a no-bill tag. They are the default exactly when no tag qualifies, and otherwise the qualifying tags. |
| Transformer.TaskTerms | src/utils/interval_transformer.ts:166-168 | Both filters keep exactly the tags that are neither `work` nor no-bill tags. |
| Transformer.TaskTermsAppend | src/utils/interval_transformer.ts:166-168 | Filtering a concatenation concatenates the filtered parts, so order and repeated tags are kept. |
| Transformer.TaskTermsSingle | src/utils/interval_transformer.ts:166-168 | A single tag is kept exactly when it is neither `work` nor a no-bill tag. |
| Transformer.FindTask | src/utils/interval_transformer.ts:162-184 | No task exactly when no task is active. Otherwise the task is an active task of the project. |
| Transformer.FindTaskIsBest | src/utils/interval_transformer.ts:179-183 | The task chosen is the first active task with the highest rating over the search terms. |
| Transformer.BuildDraft | src/utils/interval_transformer.ts:109-129 | The draft is built exactly when the date and the duration both succeed. A bad start fails with the date's error first; with a good date, a duration failure is the result. The draft carries the project, the task, the date, the seconds, the description and `billable`. |
| Transformer.ToActivity | src/utils/interval_transformer.ts:53-69 | A validation failure or a project lookup failure is the result. The interval is skipped exactly when both pass and no task is found. With a task found, the result is the draft built from the found project and task, or that build's failure. |
| Transformer.SkippedIff | src/utils/interval_transformer.ts:59-66 | An interval is skipped exactly when it is valid, its project is found, and that project has no active task. |
| Transformer.ActivityFields | src/utils/interval_transformer.ts:53-129 | A produced activity books the task `findTask` picks, an active task of a catalogue project. It is dated by the start, and its seconds are the duration from start to end, which is non-negative. It carries the interval's description. `billable` is false exactly with a no-bill tag and absent otherwise. |
| Transformer.AcmeExample | src/utils/interval_transformer.ts:53-129 | With a picker that returns every candidate (`PickAll`) and any similarity, half an hour on "acme app" with no tags becomes 1800 seconds on the project's only active task, dated 2025-02-28, with no `billable` field. |
| Summary.FindKeySpec | src/utils/interval_transformer.ts:85-90 | `find` returns the first entry with the key, and returns nothing only when no entry has it. |
| Summary.Merge | src/utils/interval_transformer.ts:85-96 | A new key is appended. For an existing key, the first entry with it gains the activity's seconds and every other entry is unchanged (through `AddTo`). |
| Summary.AddTo | src/utils/interval_transformer.ts:92-93 | `existing.seconds += interval.seconds`: the entry gains the seconds, keeps its key, and no other entry changes. |
| Summary.Summarize | src/utils/interval_transformer.ts:77-100 | No two entries of the summary share a key, and the total seconds equal those of the defined activities. |
| Summary.SummarizeCharacterized | src/utils/interval_transformer.ts:77-100 | The summary has one entry per key of the defined activities, in order of first appearance. Each entry is the first activity with that key, carrying the seconds of all of them. |
| Summary.MergeAllConserves | src/utils/interval_transformer.ts:92-96 | The fold neither loses nor invents seconds. |
| Summary.MergeAllUnique | src/utils/interval_transformer.ts:82-97 | Activities whose keys are already distinct are returned unchanged. |
| Summary.SummarizeIdempotent | src/utils/interval_transformer.ts:77-100 | Summarizing a summary changes nothing. |
| Summary.DefinedWrap | src/utils/interval_transformer.ts:83 | A list in which every activity is defined passes the filter unchanged. |
| Summary.Defined | src/utils/interval_transformer.ts:83 | Every kept element was a defined activity, and every defined activity is kept. |
| Summary.DefinedAppend | src/utils/interval_transformer.ts:83 | Filtering a concatenation concatenates the filtered parts, so defined activities keep their order and repetitions. |
| Summary.DefinedSingle | src/utils/interval_transformer.ts:83 | A single entry is kept exactly when it is defined. |
| Summary.TwoHalfHours | src/utils/interval_transformer.ts:77-100 | Two identical half-hour activities become one hour-long activity. |
| LegacyTransformer.Threshold | src/interval_transformer.ts:36-52 | An absent option and the falsy 0 keep the default 0.8, and any other value replaces it. The threshold in effect is never 0. |
| LegacyTransformer.NoBillTerms | src/interval_transformer.ts:107-109 | The two filters keep exactly the no-bill tags. |
| LegacyTransformer.NoBillTermsAppend | src/interval_transformer.ts:107-109 | Filtering a concatenation concatenates the filtered parts. |
| LegacyTransformer.SearchTerm | src/interval_transformer.ts:106-112 | The term is a no-bill tag of the interval, or the default exactly when there is none. |
| LegacyTransformer.FirstNoBillTag | src/interval_transformer.ts:107-112 | With a no-bill tag present, the term is the first of them. |
| LegacyTransformer.IgnoresBillableTags | src/interval_transformer.ts:107-112 | Inserting a tag that is not a no-bill tag anywhere leaves the term unchanged. |
| LegacyTransformer.FindTask | src/interval_transformer.ts:102-122 | No task when none is active. Otherwise the first hit of the threshold search of the active tasks by name, which may be nothing. |
| LegacyTransformer.FoundTaskIsActive | src/interval_transformer.ts:114-121 | A task found is an active task of the project. |
| LegacyTransformer.ToActivity | src/interval_transformer.ts:61-77 | Fails exactly when validation, the project lookup, the date or the duration fails, in that order. Nothing is skipped and `billable` is never set. |
| LegacyTransformer.ActivityFields | src/interval_transformer.ts:61-77 | A produced activity books a catalogue project, on the task found or else the project's first task. It is dated by the start, and its seconds are the duration from start to end, which is non-negative. It carries the description. |
| LegacyTransformer.DraftFields | src/interval_transformer.ts:61-77 | For any pickers, a produced activity carries the found project's id, the task found or else the project's first task, the start's date, the exact duration and the description. |
| LegacyTransformer.InactiveFallsBack | src/interval_transformer.ts:65-70 | A project with no active task is booked on its first task. |
| LegacyTransformer.VacationTerm | src/interval_transformer.ts:107-112 | `work, acme, vacation` searches for `vacation`, while `work, acme` searches for the default. |

## Left out

- Reading standard input, `main.ts`, the Moco HTTP client and console output
  (`console.warn` and `console.error`) are I/O and are not modelled.
- `JSON.parse` is a decoder parameter. Its result is taken to be an array of
  objects with `id`, `start`, `end` and `tags`. Other JSON shapes (a non-array,
  missing fields, non-string tags) are not modelled.
- The `fuzzySearch` and `picoSearch` libraries are parameters, so their
  scoring is not modelled. Properties that need the threshold search to return
  only its inputs assume `DrawsFrom`.
- Timestamp.ParseIso: V8's `Date` parser is more lenient than the model.
  - The model takes a timestamp as valid only if it has the exact extended
    shape and every field is in range.
  - V8 also accepts hour 24 and other forms through its legacy parser.
  - V8 accepts years above 9999 only in the expanded format.
  - Calendar rollover is not modelled.
- Numbers are `int` and `real`, not IEEE doubles. Ratings are reals and
  durations whole seconds. Rounding in `getTime()` differences and in the sum
  of scores is not modelled.
- Text.Lower: folds ASCII letters only. `toLowerCase` also folds non-ASCII
  letters.
- `validateProjects` (`src/utils/interval_transformer.ts:215-223`,
  `src/interval_transformer.ts:182-190`) is not modelled. It only checks the
  array type, which the typed catalogue guarantees, and warns on an empty
  catalogue.
- The `!interval` check in `validateInterval` and the `!project.tasks` check
  in `findProject` are not modelled. They guard against `null` values that the
  typed model cannot hold.
- Summary.Summarize: the model returns new values. In the source,
  `summarize` mutates the `seconds` of the caller's activity objects in place.
  That aliasing is not modelled.
- The configuration object is a plain map. In the source it is an object
  literal that inherits from `Object.prototype`, so keys naming its members
  behave differently there, and the model does not follow them:
  - a step such as `constructor` or `toString` keeps the inherited function
    and writes onto it;
  - a step `__proto__` writes onto `Object.prototype` itself;
  - a last step `__proto__` silently ignores the string value.
- Strings are sequences of Unicode scalar values, not UTF-16 code units.
  JavaScript's `slice` counts code units, so for characters outside the Basic
  Multilingual Plane the positions that `formatISOString` slices differ. For
  example, an emoji at the ignored position 8 shifts the time digits in the
  source, so `new Date` is invalid there, but the model still reads the time.
- Error messages are reduced to one `Error` constructor per throw site. The
  wrapping `Failed to calculate interval duration: ...` prefix is not kept.
