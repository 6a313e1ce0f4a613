# volumito core, modelled in Dafny

volumito is a terminal remote control for a Volumio music player. It polls the player's
`getState` JSON, shows the track, volume and a progress bar, and sends commands (volume,
play/pause, seek). This project models the two pieces of `volumito.py` that do more than
move data around:

- **The time-value resolver** of `refresh_ui`. Player firmwares report the elapsed time and
  the track length under varying key names, nested at varying depths, in seconds or in
  milliseconds, as numbers or as `H:M:S` strings. The resolver has four steps:
  - it collects candidates by key name (`_deep_find_all` and the top-level loops);
  - it parses them (`_parse_time`, `_to_number`);
  - it tries each elapsed/duration pair under the four second/millisecond readings and keeps
    the plausible ones;
  - it picks the best pair by a fixed sort key, or falls back candidate by candidate.
- **The client state and its updates.** The client keeps `self.status`, the last known
  status dict, and `self._recent_seek`, the pending seek. They are updated by:
  - the anti-bounce merge `_merge_status`, which for three seconds after a seek ignores
    reported positions that are not within two seconds of the target;
  - the optimistic edits `_change_volume`, `_toggle_play` and `_seek_relative`.

Every operation with a loop or a state change is modelled in two forms:

- **As a function of its inputs.** Examples: `Resolver.Resolve`, `Transitions.Merge`,
  `Transitions.Seeked`.
- **As the code runs.** The source's loops become methods with loop invariants. The client
  object becomes the class `StateStore.StateStore`, whose fields the methods update in place.
  Each method is proved to compute its function.

The conversions `_parse_time` and `_to_seconds_simple`, whose only loop is the comprehension
over the colon fields, and Python's `dict.update` are modelled as functions only.

The properties are proved about the functions. They cover:

- the ranges the resolver guarantees and the cases where it cannot;
- when the unit heuristic recovers the intended seconds and when it does not;
- what the merge keeps and what it overwrites;
- the clamping of volume and seek;
- what a seek writes back, and how that value reads again.

Python values are modelled as a `Value` tree (None, numbers, strings, booleans, dicts, lists).
A dict is the ordered list of its entries. `dict.update` is modelled entry by entry, so a key
given twice in the source dict takes its last value.

Files:

| file | contents |
|---|---|
| `wrappers.dfy` | `Option` |
| `text.dfy` | `str.lower` on ASCII, `in` on strings, `split(':')` and its inverse, `float()` and `int()` on strings |
| `values.dfy` | the value tree, dict lookup, item assignment, `dict.update`, key removal |
| `conversions.dfy` | `float()`, `int()`, `_parse_time`, `_to_seconds_simple` |
| `deep_find.dfy` | `_deep_find_all` and an independent pre-order description of it |
| `resolver.dfy` | the resolver as functions, and its loops as methods |
| `resolver_facts.dfy` | what the resolver guarantees |
| `resolver_examples.dfy` | the resolver on `{seek, duration}`: the unit heuristic, examples |
| `transitions.dfy` | the state and its four updates as functions, with their properties |
| `transitions_examples.dfy` | a seek followed by reports during and after the window; volume clamping; unit quirks of the write-back |
| `state_store.dfy` | the client object: a class whose methods follow the source's statements |

## Behaviours of the code worth knowing

The model follows the code. Each behaviour below is stated by the contract of the member
named with it, and that member is proved:

- **The four unit readings resolve alike only under conditions.** The comment at
  volumito.py:241 says the code tries each candidate raw and as milliseconds. The readings
  `(s, d)`, `(1000s, d)`, `(s, 1000d)` and `(1000s, 1000d)` do not always resolve to the same
  result.
  - `ResolverExamples.UnitInvariance`: they do when `36 <= d` and `1.1 d < 1000 s`.
  - `ResolverExamples.ShortTrackInMillis`: below 36 s, a duration given in milliseconds is
    still a plausible duration in seconds, and it is taken as such.
  - `ResolverExamples.EarlyPositionInMillis`: a position given in milliseconds that fits
    under `1.1 d` is taken as seconds.
- **The fallback elapsed time is never in range when a duration is known.**
  `ResolverFacts.FallbackElapsedOutOfRange`: when no pair is plausible and the fallback finds
  a duration, any elapsed time the fallback returns lies outside [0, 1.1 · duration]. The
  range named in the comment at volumito.py:260 therefore holds exactly for paired results
  (`ResolverFacts.ResolveInRangeIffPaired`, both directions).
- **The last resort returns the first candidate above 1000, else the last candidate.** The
  loop under the comment at volumito.py:294 stops at the first candidate above 1000 and
  divides it by 1000. Otherwise it keeps overwriting, so the result is the last candidate that
  parses (`Resolver.LastResortFirstAbove`, `Resolver.LastResortLastParsed`).
- **The fallback duration prefers an earlier candidate over an unconverted one.** The comment
  at volumito.py:268 asks for the first sensible duration, preferring one that is not
  converted. The loop tries each candidate as it is, then as milliseconds, before it moves
  on. So the first candidate with any plausible reading wins, even a converted one, over a
  later candidate that is plausible as it is (`Resolver.FallbackDurationFirst`).
- **An expired pending seek is never cleared.** After the window it just stops shadowing
  anything (`Transitions.ExpiredSeekStaysRecorded`).
- **`_to_seconds_simple` reads every plain number above 1000 as milliseconds.** A player that
  reports seconds is misread once past 1000 s (`TransitionExamples.LongTrackInSecondsMisread`).
- **The write-back unit can flip.** When `seek` was in milliseconds, the write-back stays in
  milliseconds, and a target under one second writes a number that later reads as seconds
  (`TransitionExamples.NearStartMillisRereadAsSeconds`).
- **A negative duration pins the seek target.** `if dur_s:` accepts a negative duration, so
  the target becomes that negative value (`Transitions.SeekTarget`).

## Model

| member | source | states |
|---|---|---|
| Text.Lower | volumito.py:213 | `key.lower()`: same length, each ASCII capital becomes its small letter, every other character is kept, and no ASCII capital is left |
| Text.LowerUnchanged | volumito.py:212 | a key without capitals is its own lower-case form |
| Text.ContainsHasChars | volumito.py:214 | every character of a substring found in a key is a character of the key (used to refute matches) |
| Text.Split | volumito.py:196 | `split(':')` gives at least one piece and no piece holds the separator |
| Text.SplitJoin | volumito.py:196 | splitting pieces joined by the separator gives the pieces back, when no piece holds it |
| Text.JoinSplit | volumito.py:196 | joining the pieces of `split(':')` with `:` gives the string back |
| Text.DecimalRejectsColon | volumito.py:191-196 | `float()` rejects any string with a colon, so such strings reach the time-code branch |
| Text.DigitsAgree | volumito.py:191 | a digit string reads as the same number whether read as an integer or as a real |
| Text.IntegerIsDecimal | volumito.py:386 | every literal `int()` accepts, `float()` accepts with the same value |
| Values.Set | volumito.py:391 | `d[k] = v`: `k` now gives `v`, every other key gives what it gave; every entry under another key stays as it was and where it was, and a new key is appended as the last entry |
| Values.LatestIsGet | volumito.py:451 | in a dict with distinct keys the last entry under a key is the one lookup finds |
| Values.Update | volumito.py:451 | `d.update(src)`: each key gives the last value `src` gives it, else its old value; existing keys keep their places, appended keys are new and come from `src`, keys stay distinct |
| Values.UpdateAppendsInOrder | volumito.py:451 | `d.update(src)` appends the new keys in the order in which `src` first lists them |
| Values.UpdateIdempotent | volumito.py:461 | updating twice with the same dict is updating once |
| Values.Without | volumito.py:455-457 | the entries left are the entries of `d` whose keys are not removed, all of them and only them |
| Values.WithoutKeepsOrder | volumito.py:455-457 | in a dict with distinct keys the `pop`s move nothing: the entries left keep their order |
| Values.AppendedInStrippedOrder | volumito.py:455-458 | keys appended in the order of the stripped payload are appended in the order of the whole payload |
| Values.WithoutGet | volumito.py:455-457 | after the `pop`s the removed keys are absent and every other key gives what it gave |
| Values.LatestWithout | volumito.py:455-458 | the stripped payload assigns no removed key and assigns every other key as before |
| Conversions.Trunc | volumito.py:514-517 | `int(x)` truncates toward zero: the integer part of x, rounded toward 0 |
| Conversions.ParseFields | volumito.py:196 | the field list parses exactly when every field parses, field by field; otherwise some field does not |
| Conversions.ParseTime | volumito.py:188-203 | `_parse_time` never yields a number for None, a dict or a list |
| Conversions.ParseTimeColon | volumito.py:191-196 | a string with a colon is parsed as a time code |
| Conversions.ColonTimeJoin | volumito.py:195-201 | a time code made of parseable fields parses to the seconds of those fields |
| Conversions.ColonTimeHms | volumito.py:197-198 | `H:M:S` is `H*3600 + M*60 + S` |
| Conversions.ColonTimeMs | volumito.py:199-200 | `M:S` is `M*60 + S` |
| Conversions.ColonTimeManyFields | volumito.py:201 | four or more parseable fields give the first field |
| Conversions.ColonTimeBadField | volumito.py:202-203 | one unparseable field makes the whole time code unparseable |
| Conversions.ParseTimeNumber | volumito.py:476-490 | a number parses to itself in `_parse_time`, and to itself or a thousandth of itself in `_to_seconds_simple` |
| Conversions.ToSecondsSimple | volumito.py:473-490 | `_to_seconds_simple` accepts exactly what `_parse_time` accepts and gives the same value, except that a plain number above 1000 is divided by 1000 |
| Conversions.PyIntWithinPlainFloat | volumito.py:386 | whatever `int()` accepts `float()` accepts too, and `int()` gives its truncation toward zero |
| DeepFind.MatchCount | volumito.py:213-215 | a value is appended at most once per needle, and not at all exactly when no needle occurs in the key |
| DeepFind.MatchCountSingle | volumito.py:213-215 | one needle counts 1 when it occurs in the key and 0 otherwise |
| DeepFind.MatchCountAppend | volumito.py:213-215 | the counts of two needle lists add up, so the count is the number of needles that occur in the key |
| DeepFind.DeepFindAllIsPreOrderHits | volumito.py:206-220 | the search returns, in depth-first pre-order, each entry's value once per needle in its key |
| DeepFind.HitsMembership | volumito.py:210-216 | a value is among the hits of a list of entries exactly when one of them holds it under a matching key |
| DeepFind.DeepFindAllMembership | volumito.py:206-220 | a value is found exactly when some entry at any depth holds it under a key containing a needle |
| DeepFind.OwnHits | volumito.py:212-215 | the needle loop appends the entry's value once per needle in its key |
| DeepFind.FindAll | volumito.py:206-220 | the recursive loops compute the search |
| Resolver.TopLevel | volumito.py:225-230 | at most one candidate per key, and every present key's value is collected |
| Resolver.TopLevelOne | volumito.py:225-230 | one key gives its value when present and nothing when absent |
| Resolver.TopLevelSnoc | volumito.py:225-230 | one more key adds its value at the end when present |
| Resolver.TopLevelAppend | volumito.py:225-230 | the candidates of two key lists are concatenated, so they are exactly the present keys' values in key order |
| Resolver.CollectTopLevel | volumito.py:225-230 | the top-level key loop computes the top-level candidates |
| Resolver.BestIndex | volumito.py:264-266 | the head of the stable sort: no pair sorts before it, and it sorts strictly before every earlier pair |
| Resolver.DurationReading | volumito.py:274-283 | a fallback candidate yields itself when in (0, 36000), else its thousandth when that is; nothing exactly when neither is |
| Resolver.ReadDuration | volumito.py:274-283 | the body of the fallback duration loop computes the reading of one candidate |
| Resolver.FallbackDuration | volumito.py:268-285 | a fallback duration is in (0, 36000) and is a parsed candidate or a thousandth of one above 1000 |
| Resolver.FallbackDurationFirst | volumito.py:268-285 | the fallback duration is the reading of the first candidate that has one; none exactly when no candidate has |
| Resolver.FirstWithin | volumito.py:286-293 | the fallback elapsed is a parsed candidate within `[0, 1.1 * (dur or inf)]`; none means no candidate is |
| Resolver.FirstWithinFirst | volumito.py:286-293 | the fallback elapsed is the first candidate within the limit |
| Resolver.LastResort | volumito.py:294-303 | the last resort is empty only when no candidate parses, else it is a candidate or a thousandth of one above 1000 |
| Resolver.LastResortFirstAbove | volumito.py:294-303 | the last resort is the first candidate above 1000, divided by 1000 |
| Resolver.LastResortLastParsed | volumito.py:294-303 | with no candidate above 1000, the last resort is the last candidate that parses |
| Resolver.WithDurFactors | volumito.py:253-262 | the inner factor loop keeps only plausible pairs |
| Resolver.WithFactors | volumito.py:252-262 | the two factor loops keep only plausible pairs |
| Resolver.DurPairs | volumito.py:248-262 | the duration loop keeps only plausible pairs |
| Resolver.AllPairs | volumito.py:244-262 | the four nested loops keep only plausible pairs: elapsed in [0, 1.1 d] and d in (0, 36000) |
| Resolver.Resolve | volumito.py:241-305 | the resolved duration is 0 or in (0, 36000); with a plausible pair the elapsed time is known and in [0, 1.1 d] |
| Resolver.ScalePair | volumito.py:253-262 | the two factor loops keep exactly the plausible readings, in loop order |
| Resolver.PairsFor | volumito.py:249-262 | the duration loop skips unparseable candidates and collects the readings of the others |
| Resolver.CollectPairs | volumito.py:245-262 | the four nested loops compute every plausible pair in order |
| Resolver.PickFallbackDuration | volumito.py:268-285 | the fallback duration loop computes the fallback duration |
| Resolver.PickWithin | volumito.py:286-293 | the fallback elapsed loop computes the first candidate within the limit |
| Resolver.PickLastResort | volumito.py:294-303 | the final loop computes the last resort |
| Resolver.ResolveTimes | volumito.py:222-305 | the whole resolver, as the code runs, computes the resolved elapsed time and duration |
| ResolverFacts.ParsedTimesMembership | volumito.py:246-248 | a number survives parsing exactly when some candidate parses to it |
| ResolverFacts.WithDurFactorsMembership | volumito.py:254-262 | the inner factor loop keeps exactly the plausible readings with the given elapsed factor |
| ResolverFacts.WithFactorsMembership | volumito.py:253-262 | a pair is kept exactly when it is a plausible reading of the two numbers under factors 1 or 0.001 |
| ResolverFacts.DurPairsMembership | volumito.py:249-262 | a pair is collected for an elapsed number exactly when it scales it and some parsed duration |
| ResolverFacts.AllPairsMembership | volumito.py:245-262 | a pair is collected exactly when it is a plausible scaling of some parsed elapsed and duration candidate |
| ResolverFacts.ResolvePaired | volumito.py:261-266 | with plausible pairs, the result is one of them that no pair beats, so elapsed in [0, 1.1 d] and d in (0, 36000) |
| ResolverFacts.ResolvePrefersUnscaledDuration | volumito.py:263-266 | if some pair reads the duration unscaled, the result does too, with the smallest such duration |
| ResolverFacts.FallbackDurationPairs | volumito.py:261-285 | a fallback duration together with an elapsed reading within its limit would have formed a pair |
| ResolverFacts.FallbackWithinNeverHits | volumito.py:286-293 | when there are no pairs but a fallback duration, no elapsed candidate is within its limit |
| ResolverFacts.FallbackLastResortOutOfRange | volumito.py:294-303 | then the last resort lies outside [0, 1.1 d] |
| ResolverFacts.FallbackElapsedOutOfRange | volumito.py:267-305 | a fallback result with a known duration never has its elapsed time in range |
| ResolverFacts.ResolveInRangeIffPaired | volumito.py:241-305 | a result with both times known is in range exactly when it came from a plausible pair |
| ResolverFacts.ResolveElapsedUnknown | volumito.py:286-303 | the elapsed time is unknown exactly when no elapsed candidate parses |
| ResolverFacts.ResolveDurationUnknown | volumito.py:264-305 | the duration is 0 exactly when there are no pairs and no fallback duration |
| ResolverExamples.TwoNumbersFound | volumito.py:206-220 | in a two-entry dict each value is found once per needle in its key |
| ResolverExamples.TwoKeySeekCandidates | volumito.py:225-232 | `{seek, duration}` yields the seek value twice (top level and deep search) as elapsed candidates |
| ResolverExamples.TwoKeyDurationCandidates | volumito.py:228-233 | and the duration value twice as duration candidates |
| ResolverExamples.ScalingsOf | volumito.py:253-262 | the four readings of one pair, in loop order, each kept when plausible |
| ResolverExamples.BestIndexExtend | volumito.py:264-266 | appending pairs that do not beat the head keeps the head |
| ResolverExamples.BestOfDoubled | volumito.py:264-266 | duplicated candidates do not change the chosen pair |
| ResolverExamples.TwoKeyResolve | volumito.py:241-266 | `{seek, duration}` resolves to the best of its four readings |
| ResolverExamples.TwoKeyFallback | volumito.py:267-305 | with no plausible reading, `{seek, duration}` resolves through the fallback loops |
| ResolverExamples.UnitInvariance | volumito.py:241-266 | for `36 <= d < 36000`, `0 <= s <= d` and `1.1 d < 1000 s`, all four unit readings resolve to `(s, d)` |
| ResolverExamples.FirstReadingWins | volumito.py:261-266 | a plausible pair in seconds is resolved as given |
| ResolverExamples.ShortTrackInMillis | volumito.py:261-266 | a track shorter than 36 s given in milliseconds is resolved as that many seconds |
| ResolverExamples.EarlyPositionInMillis | volumito.py:261-266 | a millisecond position that fits under `1.1 d` is resolved as seconds |
| ResolverExamples.MillisecondPositionExample | volumito.py:241-266 | `{seek: 45000, duration: 180}` resolves to (45, 180) |
| ResolverExamples.ShortTrackExample | volumito.py:241-266 | `{seek: 10000, duration: 30000}` resolves to (10000, 30000) |
| ResolverExamples.FallbackExample | volumito.py:267-305 | `{seek: 500000, duration: 180}` has no plausible pair and resolves to (500, 180) |
| Transitions.ReportedIn | volumito.py:437-448 | the position is the value of the first key that converts, read as milliseconds above 1000; keys that are missing or do not convert are skipped; none exactly when no key converts |
| Transitions.Merge | volumito.py:427-461 | non-dicts are ignored; outside the window the payload overwrites the status; inside it a confirming report clears the pending seek, and any other report keeps the position keys and the seek; old keys keep their places and new keys are appended in payload order |
| Transitions.MergeIdempotent | volumito.py:427-461 | merging the same payload twice at the same time is merging it once |
| Transitions.ExpiredSeekStaysRecorded | volumito.py:433-461 | after the window the merge is a plain update and the pending seek stays recorded |
| Transitions.Clamp | volumito.py:389 | `max(0, min(100, x))` is in [0, 100], is x inside the range and the nearer bound outside it |
| Transitions.VolumeChanged | volumito.py:383-391 | only `volume` changes, to the clamped sum of the readable volume and the delta; every key keeps its place and a new `volume` is appended last |
| Transitions.VolumeInRange | volumito.py:383-391 | the new volume reads back in [0, 100] and is exact when the sum stays in range |
| Transitions.UnreadableVolumeCountsAsZero | volumito.py:384-389 | a missing volume or one `int()` cannot read counts as 0, so the new volume is the clamped delta; a readable one counts as its `int()` |
| Transitions.PlayToggled | volumito.py:395-405 | only `status` changes: to `pause` when it mentions play, else to `play`; every key keeps its place and a new `status` is appended last |
| Transitions.PlayMentionsPlay | volumito.py:397-398 | the stored `play` mentions play |
| Transitions.PauseDoesNotMentionPlay | volumito.py:397-398 | the stored `pause` does not mention play |
| Transitions.ToggleFlips | volumito.py:395-405 | every toggle flips whether the status mentions play |
| Transitions.ToggleTwice | volumito.py:395-405 | from `play` or `pause`, two toggles restore the state |
| Transitions.FirstPresent | volumito.py:492-501 | the value of the first present key, wherever it is in the list; none exactly when no key is present |
| Transitions.CurrentSeconds | volumito.py:492-503 | the first present position key decides the position, 0 when its value does not convert or no key is present |
| Transitions.TrackSeconds | volumito.py:497-504 | the first present duration key decides; a value that does not convert or converts to zero gives an unknown duration, as does no key |
| Transitions.SeekTarget | volumito.py:503-508 | the moved position clamped to [0, duration]; a negative duration pins the target to itself |
| Transitions.Seeked | volumito.py:510-525 | `position` gets the whole seconds, `seek` the same in its old unit, the target is recorded as pending, nothing else changes; old keys keep their places, a new `seek` is appended before a new `position` |
| Transitions.WrittenBack | volumito.py:512-520 | the two written keys and nothing else; old keys keep their places, a new `seek` comes right after them and a new `position` last |
| Transitions.SeekRereadsMillis | volumito.py:512-514 | a millisecond write-back past the first second reads again as the target within a millisecond |
| Transitions.SeekRereadsSeconds | volumito.py:515-517 | a seconds write-back of at most 1000 s reads again as the target within a second |
| Transitions.ReadsSeekFirst | volumito.py:492-496 | with `seek` present the current position is read from it |
| Transitions.WholeMillisecondsReread | volumito.py:488-490 | whole milliseconds above one second read back within a millisecond |
| Transitions.SeekSurvivesStaleReports | volumito.py:434-459 | right after a seek, a non-confirming report leaves the position keys and the pending seek alone; a confirming one clears the seek |
| TransitionExamples.SeekForwardInMillis | volumito.py:503-525 | 100 s into a 300 s track in milliseconds, 30 s forward writes 130000 and 130 and waits for 130 s |
| TransitionExamples.ReportsSeek | volumito.py:437-448 | `{seek: x}` reports x, read as milliseconds above 1000 |
| TransitionExamples.StaleReportHeldBack | volumito.py:454-459 | a report of 100.5 s at t = 1 is held back |
| TransitionExamples.ConfirmingReportTaken | volumito.py:449-453 | a `seek` report that confirms a pending seek inside the window is taken and ends the wait |
| TransitionExamples.CloseReportConfirms | volumito.py:449-453 | a report of 129 s at t = 2 is taken and ends the wait |
| TransitionExamples.LateReportBouncesBack | volumito.py:460-461 | a report of 101 s at t = 3.5 is taken and the seek stays recorded |
| TransitionExamples.LongTrackInSecondsMisread | volumito.py:488-508 | seconds above 1000 are read as milliseconds: 30 s forward from 1100 s lands on 3 s |
| TransitionExamples.NearStartMillisRereadAsSeconds | volumito.py:512-516 | 30 s back from 30.5 s in milliseconds writes `seek = 500`, read again as 500 s |
| TransitionExamples.VolumeClampExamples | volumito.py:389 | 99 + 2 gives 100 and 1 - 5 gives 0 |
| TransitionExamples.LoudVolumeTurnedUp | volumito.py:384-389 | a volume of `"loud"` turned up by 5 becomes 5 |
| StateStore.FindFirstPresent | volumito.py:492-501 | the key loop with `break` finds the first present key's value |
| StateStore.FindReported | volumito.py:437-448 | the reported-position loop computes the reported position |
| StateStore.StripPositions | volumito.py:455-457 | the `pop` loop removes exactly the position keys |
| StateStore.NewPosition | volumito.py:492-508 | the position computation of `_seek_relative` computes the seek target |
| StateStore.StateStore.Merge | volumito.py:427-461 | `_merge_status` updates the fields to the merged state and keeps the keys distinct |
| StateStore.StateStore.ChangeVolume | volumito.py:383-391 | `_change_volume` updates the status to the changed volume |
| StateStore.StateStore.TogglePlay | volumito.py:395-405 | `_toggle_play` updates the status to the toggled one |
| StateStore.StateStore.SeekRelative | volumito.py:469-525 | `_seek_relative` writes back the target and records it as pending |

## Left out

- HTTP requests, the command URLs and the worker threads of `_change_volume`, `_toggle_play`
  and `_seek_relative` (volumito.py:392-393, 406-407, 527-550) are not modelled. The commands
  they send depend on no state beyond what the model computes.
- The status lock and the threads that share the state are not modelled. Each update runs
  atomically in the model. In the source only `_merge_status` runs wholly under
  `_status_lock`, which its callers hold. `_change_volume` (volumito.py:385-391),
  `_toggle_play` (396-405) and `_seek_relative` (471-525) read the status under one
  acquisition of the lock and write it under another. A merge landing between the read and
  the write is not modelled for any of the three.
- The clock is not modelled: `time.time()` is a parameter `now` of the merge and the seek.
- The rendering in `refresh_ui` is not modelled: the widgets, the percentage at line 308 (which
  divides by a `None` elapsed time when no candidate parses), and the text formatting.
- Floating point is not modelled. Numbers are exact reals and `1.0/1000.0` is exactly 0.001,
  so rounding, NaN and infinities are out. The comparison with `float('inf')` at line 291 is
  modelled as "no upper limit".
- Conversions.PlainFloat: `float()` on a string accepts only an optional sign, digits, and an
  optional fraction, with ASCII digits. Python also accepts exponents, surrounding whitespace,
  underscores, `inf`, `nan` and non-ASCII decimal digits.
- Conversions.PyInt: `int()` on a string accepts an optional sign followed by ASCII digits.
  Python also accepts surrounding whitespace, underscores and non-ASCII decimal digits.
- Text.Lower: lower-cases ASCII capitals only, not other Unicode capitals.
- `str(v)` of a dict or list is not modelled. Its text starts with `{` or `[`, so its first
  field never parses, and `Conversions.ParseTime` returns None for these values directly.
- Python's int and float are not told apart: both are `Num`. `int()` truncation is written out
  where the source applies it. A bool is a number to `float()` and `int()`, as in Python.
- Resolver.BestIndex: models `pairs.sort(key=...)` followed by `pairs[0]` as the first pair no
  other pair beats. That is the head of Python's stable sort; the rest of the sorted list is
  never used.
- The rest of `volumito.py` (configuration, key bindings, the polling loop, the UI layout) is
  not part of this model.
