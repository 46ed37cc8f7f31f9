# shout: activity resolution and clock-time parsing in Dafny

`shout` is a command-line tool with which a student declares a logged work
session to the school's activity-tracking API. Two pure helpers of
`shout/shout.py` carry its logic, and this project models both and proves
properties of them:

- `find_targeted_activity_details` resolves a module (UV) name and a project
  name to the `(module_id, activity_id)` pair of one activity. It scans the
  directory of current activities in insertion order. A module name matches
  when it equals the query after case folding. For a matching module the one
  candidate activity is the first element of its `"project"` list when that
  list is truthy, otherwise the first element of its `"quest"` list. The scan
  returns the candidate's identifiers when the folded project query occurs in
  the folded candidate name. Otherwise it keeps scanning, and it raises
  `ValueError` at the end.
- `extract_time_limit` splits a clock time on `':'`. One part gives
  `(int(part), 0)`. Otherwise the first two parts give `(int(h), int(m))`.
  There is no range check, and parts after the second are ignored.

Files:

- `wrappers.dfy`: `Option` and `Result`. Python's absent keys and raised
  exceptions become values of these types.
- `text.dfy`: ASCII case folding (`Lower`), the substring test (`Contains`),
  and `Split` on a separator with its inverse `Join`.
- `decimal.dfy`: `ParseInt`, a model of `int(text)`. Its partner `FormatInt`
  (`str(n)`) is used to state round trips.
- `activities.dfy`: the directory data model and the resolver.
- `clock_time.dfy`: `extract_time_limit`.

The directory is a sequence of `(module name, Group)` pairs in the order
`dict.items()` yields them. A `Group` holds `project` and `quest` as
`Option<seq<Activity>>`. `None` stands for both an absent key and a stored
`None`, since `dict.get` does not tell them apart. `Truthy` is Python's
`not`-test on such a list: absent, `None` and `[]` are all falsy.

Behaviour worth spelling out:

- A matching module with no truthy `project` and no usable `quest` is not
  skipped. `value.get('quest')[0]` at shout/shout.py:80 raises `TypeError`
  (`None[0]`) when the quest list is missing and `IndexError` (`[][0]`)
  when it is empty, and the scan ends there. The model returns
  `QuestMissing(key)` or `QuestEmpty(key)` in those cases, as errors
  distinct from `NotFound` (`Activities.CrashScenario`,
  `Activities.CandidatelessModuleStops`).
- The scan follows `dict.items()` insertion order, not a sorted order, and
  the model's directory is a sequence in that order.
- `project_type = ''` at shout/shout.py:76 assigns a variable whose value
  is only compared, by `project_type == ...` at shout/shout.py:81 and 84,
  and the results of those comparisons are discarded. The `verbose` parameter is never
  read. None of these affects behaviour, and the model has none of them.

## Model

| member | source | states |
|---|---|---|
| Activities.FindTargetedActivityDetails | shout/shout.py:67-87 | The resolver itself. An error other than `NotFound` names a module whose key folds to the query. `ResultSound`, `FirstStopDecides` and `NotFoundIffNoStop` state the rest of its result. |
| Activities.Candidate | shout/shout.py:79-84 | The candidate is `project[0]` when the project list is truthy, else `quest[0]` when the quest list is non-empty. An absent quest list is `QuestMissing` and an empty one is `QuestEmpty`. A candidate exists exactly when one of the two lists is truthy. |
| Activities.ModuleMatchesCharwise | shout/shout.py:78 | The module test `name.lower() == uv_name.lower()` holds exactly when both names have the same length and agree character by character after folding. |
| Activities.ProjectMatchesWindow | shout/shout.py:85 | The project test `project.lower() in activity["name"].lower()` holds exactly when some window of the folded name equals the folded query. An empty query matches every name. |
| Activities.ResultSound | shout/shout.py:67-87 | A success from `FindTargetedActivityDetails` is the identifiers of an entry whose key folds to the query and whose candidate's folded name contains the folded project, and no earlier entry stops the scan. An error other than `NotFound` is the candidate error of a matching module, and no earlier entry stops the scan. |
| Activities.FirstStopDecides | shout/shout.py:77-86 | An entry stops the scan when its key folds to the query and either its candidate contains the folded project or it has no candidate. The first entry that stops the scan decides the result: that candidate's identifiers, or its error. |
| Activities.NotFoundIffNoStop | shout/shout.py:77-87 | The result is `NotFound` exactly when no entry stops the scan. |
| Activities.ScanConcat | shout/shout.py:77-86 | First match wins: scanning `front + back` gives `front`'s result unless `front` ends with `NotFound`, in which case it gives `back`'s result. |
| Activities.OnlyFrontsInspected | shout/shout.py:79-84 | Cutting every `"project"` and `"quest"` list to its first element, while keeping an empty list empty and an absent one absent, does not change the result. Elements at index 1 or later are never inspected. |
| Activities.QueryCaseInsensitive | shout/shout.py:78-85 | Folding the module query and the project query before the call does not change the result. |
| Activities.NoModuleNotFound | shout/shout.py:77-87 | When no key folds to the module query, the result is `NotFound`. |
| Activities.CandidatelessModuleStops | shout/shout.py:77-80 | The scan may reach, with nothing found so far, a matching module with no truthy project list and no non-empty quest list. The result is then `QuestMissing` or `QuestEmpty` for that module, whatever entries follow. |
| Activities.FlySafeScenario | shout/shout.py:77-86 | Querying "tic-sec5"/"flysafe" against the key "TIC-SEC5" with the project "FlySafe" gives `(1, 2)`. |
| Activities.QuestFallbackScenario | shout/shout.py:79-85 | With an empty project list, the first quest is compared. A query that only the second quest would match gives `NotFound`. |
| Activities.KeepScanningScenario | shout/shout.py:77-86 | A matching module whose candidate fails the project test does not end the scan. A later key with the same folded name answers the query. |
| Activities.CrashScenario | shout/shout.py:79-80 | A matching module without project and quest gives `QuestMissing`, and one with an empty quest list gives `QuestEmpty`. In both cases a later entry would have matched. |
| Text.Contains | shout/shout.py:85 | `needle in hay` holds exactly when some window of `hay` equals `needle`. |
| Text.Lower | shout/shout.py:78 | `s.lower()` keeps the length and folds each character on its own: A-Z become a-z and every other character is unchanged. No uppercase ASCII letter is left. |
| Text.Split | shout/shout.py:105-106 | `split(sep)` returns at least one part, and no part contains the separator. There is exactly one part iff the text has no separator. Joining the parts with the separator gives back the text. |
| Text.SplitJoin | shout/shout.py:105 | Splitting the join of separator-free parts gives back the parts. |
| Decimal.ParseInt | shout/shout.py:109-110 | `int(text)` succeeds exactly on an optional sign followed by at least one digit. A `-` sign gives a value of at most zero, and a `+` or a digit first gives a value of at least zero. |
| Decimal.ParseFormat | shout/shout.py:110 | Parsing `FormatInt(n)`, the model of `str(n)`, gives `n` for every integer. |
| Decimal.FormatParse | shout/shout.py:110 | For canonical text, `FormatInt` applied to the parsed value gives the text again. |
| Decimal.LeadingZeroIgnored | shout/shout.py:109-110 | A leading zero does not change the parsed value, so "09" reads as 9. |
| Decimal.SignedLiteral | shout/shout.py:109-110 | A `-` before a digit string negates its value and a `+` leaves it unchanged, so "+5" reads as 5 and "-05" as -5. |
| ClockTime.ParseSegment | shout/shout.py:109-110 | Converting one segment succeeds exactly on an integer literal and then returns the value `int(segment)` has. A failure names that segment. |
| ClockTime.ExtractTimeLimit | shout/shout.py:97-110 | Text without a colon gives minute 0. A failure names a segment that is not an integer literal, and that segment is the first or second part of the split. |
| ClockTime.HourOnly | shout/shout.py:105-109 | Text without a colon succeeds exactly when it parses as an integer, and the result is `(int(text), 0)`. |
| ClockTime.HourAndMinute | shout/shout.py:105-110 | "H:M" succeeds exactly when both parts parse, giving `(int(H), int(M))`. A bad hour is reported before a bad minute. |
| ClockTime.TrailingSegmentsIgnored | shout/shout.py:105-110 | "H:M:rest" gives the same result as "H:M". |
| ClockTime.FormattedPairRoundTrip | shout/shout.py:110 | `FormatInt(h) + ":" + FormatInt(m)` gives `(h, m)` for all integers, with no range check. |
| ClockTime.FormattedHourRoundTrip | shout/shout.py:105-109 | `FormatInt(h)` alone gives `(h, 0)`. |
| ClockTime.MorningExample | shout/shout.py:100-101 | "09:00" gives `(9, 0)`. |
| ClockTime.AfternoonExample | shout/shout.py:102-103 | "14:30" gives `(14, 30)`. |
| ClockTime.NoRangeCheck | shout/shout.py:110 | "24:99" gives `(24, 99)`. |
| ClockTime.EdgeExamples | shout/shout.py:105-110 | "9" gives `(9, 0)`. "ab:00" fails on "ab". "9:" and "" fail on the empty segment. |

## Left out

- `parse_args` (shout/shout.py:17-57): command-line parsing only.
- `get_wrapper` and `main` (shout/shout.py:60-64, 141-155): environment variables, the external API client, network calls and the interactive prompt. The activity directory, which `main` fetches over the network, is a parameter of the resolver.
- `set_date` and `prepare_payload` (shout/shout.py:90-94, 113-129): the current date, datetime arithmetic and reading the declaration file.
- `display_payload` (shout/shout.py:132-138) and the diagnostic print at shout/shout.py:108: output only.
- `setup.py`: packaging metadata with no logic.
- Text.Lower: folds only the ASCII letters A-Z, whereas `str.lower()` folds all of Unicode.
- Decimal.ParseInt: accepts only an optional sign followed by ASCII digits. Python's `int()` also accepts surrounding whitespace, underscores between digits and non-ASCII decimal digits. Python 3.11 and later also reject a decimal string of more than 4300 digits in `int()` and refuse to convert such an integer in `str()`. The model has no digit limit, so `extract_time_limit` on a 5000-digit hour succeeds here and raises in Python, and `FormatInt` is defined for every integer.
- Activities.FindTargetedActivityDetails: the directory is typed. Python failures on malformed data are not modelled: an activity without a `"name"` key, or a `"project"` value that is truthy but not a list.
