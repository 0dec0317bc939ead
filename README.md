# Engine performance score and vibration CSV reader

A Dafny model of `src/lib/enginePerformance.ts`, the one piece of logic in
the Auto Insight vehicle dashboard. It has two parts.

- **Spike detector** (`calculateEnginePerformanceScore`): a scan over
  consecutive pairs of tri-axial vibration samples. A pair is a *spike* when
  the Euclidean distance between the two samples is strictly greater than 10.
  A spike is *explained* when the later sample's `time` lies in some
  inclusive `[startTime, endTime]` pothole window. The score is
  `max(0, 100 - 10 * unexplained)`. Empty input returns 100 early, and so
  does input with no spike at all.
- **Vibration CSV reader** (`parseVibrationData`, without the fetch): split
  the text on `'\n'`, skip the header line, trim each remaining line, split
  it on `','` and keep only the lines with exactly four fields, in their
  original order. Each kept row becomes a sample (time, x, y, z).

Files and modules:

- `samples.dfy`, module `Samples`: the `Sample` and `Window` records and the
  window test (`.some(...)` at line 70).
- `spike_detector.dfy`, module `SpikeDetector`: the score's specification
  (`CountSpikes`, `CountExplained`, `Score`), the imperative scan
  `CalculateEnginePerformanceScore` proved equal to it, and the properties of
  the score.
- `js_text.dfy`, module `JsText`: the two JavaScript string built-ins the
  reader calls, `String.prototype.split` with a one-character separator and
  `String.prototype.trim`. `Split` is tied to its inverse `Join` by round trips
  in both directions. `Trim` is shown to be the only string that `IsTrimOf`
  allows.
- `vibration_parser.dfy`, module `VibrationParser`: the reader's
  specification (`DataRows`), the imperative loop `ParseVibrationData`
  proved equal to it, and the filtering, ordering and header properties.

Both loops of the source are methods with loop invariants, proved against
recursive specification functions. The source keeps no state between calls,
so there are no classes.

The code returns early only for an empty array. A single sample reaches 100
through the no-spikes return at lines 79-81, and `ShortInputScoresFull`
shows that every input with fewer than two samples scores 100.

Every `number` field of `VibrationData` and `PotholeDetection` (lines 4-14),
the times included, is a `real` in the model, so the scorer accepts
fractional times and window bounds as the original does. The reader's times
come from `parseInt` (line 30), so `ToSample` always yields a whole-number
time.

## Model

| member | source | states |
|---|---|---|
| `SpikeDetector.CalculateEnginePerformanceScore` | src/lib/enginePerformance.ts:45-85 | the counter loop returns exactly `Score(samples, windows)`, which is in [0, 100]; its invariant keeps `0 <= explainedSpikes <= totalSpikes <= i - 1` |
| `SpikeDetector.Score` | src/lib/enginePerformance.ts:79-84 | the score, with both early returns, always lies in [0, 100] |
| `Samples.Covers` | src/lib/enginePerformance.ts:70-72 | both ends of a window are inclusive, and a window that covers any time has `startTime <= endTime` |
| `Samples.IsExplained` | src/lib/enginePerformance.ts:69-72 | the `.some(...)` test over the windows; an empty window list explains no spike |
| `Samples.ExplainedByFirstOrRest` | src/lib/enginePerformance.ts:69-72 | `.some` in visiting order: a non-empty list explains `t` iff its first window covers `t` or the rest explain it |
| `SpikeDetector.IsSpike` | src/lib/enginePerformance.ts:61-67 | a jump of more than 10 along any single axis is always a spike; two samples at the same position are never one |
| `SpikeDetector.CountSpikes` | src/lib/enginePerformance.ts:57-68 | no spikes with fewer than two samples; at most one spike per consecutive pair |
| `SpikeDetector.CountExplained` | src/lib/enginePerformance.ts:69-75 | explained spikes never outnumber spikes |
| `SpikeDetector.CountStep` | src/lib/enginePerformance.ts:57-76 | one loop iteration adds 1 to the spike count exactly when the pair is a spike, and 1 to the explained count exactly when the spike's later time is in a window |
| `SpikeDetector.SquaredComparisonIsExact` | src/lib/enginePerformance.ts:61-67 | for the non-negative root `delta` of the squared distance, `delta > 10` iff the squared distance exceeds 100, so the squared test decides the same as the square-root one |
| `SpikeDetector.CountSpikesIsCardinality` | src/lib/enginePerformance.ts:57-68 | the spike counter equals the number of indices `i >= 1` whose pair `(s[i-1], s[i])` is a spike |
| `SpikeDetector.CountExplainedIsCardinality` | src/lib/enginePerformance.ts:67-75 | the explained counter equals the number of spike indices `i` whose later time `s[i].time` is covered by a window |
| `SpikeDetector.ShortInputScoresFull` | src/lib/enginePerformance.ts:49-81 | zero or one sample gives 100 |
| `SpikeDetector.NoSpikesIff` | src/lib/enginePerformance.ts:57-68 | the spike count is zero iff no consecutive pair is a spike (both directions) |
| `SpikeDetector.NoSpikesScoresFull` | src/lib/enginePerformance.ts:79-81 | if no pair exceeds the threshold the score is 100, whatever the windows |
| `SpikeDetector.ScoreFormula` | src/lib/enginePerformance.ts:79-84 | the score is `100 - 10k` for `k < 10` unexplained spikes and 0 for `k >= 10` |
| `SpikeDetector.ScoreZeroIff` | src/lib/enginePerformance.ts:83-84 | the score is 0 iff at least ten spikes are unexplained |
| `SpikeDetector.ScoreIsMultipleOfPenalty` | src/lib/enginePerformance.ts:83-84 | every score is a multiple of 10 |
| `SpikeDetector.ScoreAntitoneInUnexplained` | src/lib/enginePerformance.ts:83-84 | more unexplained spikes never give a higher score |
| `SpikeDetector.MoreWindowsExplainMore` | src/lib/enginePerformance.ts:69-75 | with a superset of windows, at least as many spikes are explained |
| `SpikeDetector.MoreWindowsNeverLowerScore` | src/lib/enginePerformance.ts:69-84 | with a superset of windows, the score is at least as high |
| `SpikeDetector.AddingWindowNeverLowersScore` | src/lib/enginePerformance.ts:69-84 | appending one window never lowers the score |
| `SpikeDetector.ThresholdIsStrict` | src/lib/enginePerformance.ts:53-67 | a jump of exactly 10 is not a spike; a jump of `10 + e` for any `e > 0` is |
| `SpikeDetector.SingleSpikeScenario` | src/lib/enginePerformance.ts:45-85 | samples (t=0, 0,0,0) and (t=1, 20,0,0) with no windows score 90 |
| `SpikeDetector.ExplainedSpikeScenario` | src/lib/enginePerformance.ts:69-81 | the same samples with window [1, 1] score 100 |
| `SpikeDetector.PreviousTimeIgnoredScenario` | src/lib/enginePerformance.ts:69-72 | a window covering only the earlier sample's time explains nothing: the score stays 90 |
| `SpikeDetector.WindowEndsInclusive` | src/lib/enginePerformance.ts:70-72 | a time equal to `startTime` or `endTime` is explained; a time outside the window is not |
| `JsText.Split` | src/lib/enginePerformance.ts:22 | `split` always yields at least one piece |
| `JsText.SplitPieces` | src/lib/enginePerformance.ts:22 | no piece contains the separator, and there is one more piece than separators |
| `JsText.JoinSplit` | src/lib/enginePerformance.ts:22 | joining the pieces with the separator gives back the text |
| `JsText.SplitJoin` | src/lib/enginePerformance.ts:22 | splitting separator-free pieces joined by the separator gives back the pieces |
| `JsText.Trim` | src/lib/enginePerformance.ts:27 | `trim` never lengthens its input, leaves no whitespace at either end, and returns a string with no whitespace at its ends unchanged |
| `JsText.TrimStartDropsLeadingWhitespace` | src/lib/enginePerformance.ts:27 | the left trim is a suffix of the input, everything it drops is whitespace, and it does not start with whitespace |
| `JsText.TrimEndDropsTrailingWhitespace` | src/lib/enginePerformance.ts:27 | the right trim is a prefix of the input, everything it drops is whitespace, and it does not end with whitespace |
| `JsText.TrimRemovesSurroundingWhitespace` | src/lib/enginePerformance.ts:27 | `trim` returns a slice of the input with only whitespace around it and no whitespace at either end |
| `JsText.TrimIsUnique` | src/lib/enginePerformance.ts:27 | only one string meets that description, so it fully defines `trim` |
| `VibrationParser.ParseVibrationData` | src/lib/enginePerformance.ts:16-43 | a failed fetch gives the empty sequence; otherwise the loop's samples are exactly one `ToSample` per row of `DataRows(text)`, in order |
| `VibrationParser.Lines` | src/lib/enginePerformance.ts:22 | `text.split('\n')` gives at least one line, and joining the lines with newlines gives the text back |
| `VibrationParser.LineFields` | src/lib/enginePerformance.ts:27 | `rows[i].trim().split(',')` gives one field more than the trimmed line has commas |
| `VibrationParser.LineFieldsJoin` | src/lib/enginePerformance.ts:27 | joining a line's fields with commas gives back the trimmed line |
| `VibrationParser.ToSample` | src/lib/enginePerformance.ts:29-34 | a sample built from a four-field row has a whole-number time, as `parseInt` gives |
| `VibrationParser.DataRows` | src/lib/enginePerformance.ts:22-36 | no more rows than lines minus the header, and every row has exactly four fields |
| `VibrationParser.KeepRows` | src/lib/enginePerformance.ts:26-36 | the filter never emits more rows than it is given, and every row it emits has four fields |
| `VibrationParser.DecodeRows` | src/lib/enginePerformance.ts:29-34 | sample k is built from row k: time from field 0, x, y, z from fields 1-3 |
| `VibrationParser.ReadStep` | src/lib/enginePerformance.ts:26-36 | one iteration appends the line's sample exactly when the trimmed line has four comma-separated fields |
| `VibrationParser.KeepRowsAppend` | src/lib/enginePerformance.ts:26-36 | filtering a concatenation is the concatenation of the filtered parts |
| `VibrationParser.KeepRowsStep` | src/lib/enginePerformance.ts:28-35 | one more row is kept exactly when it has four fields |
| `VibrationParser.ShortRowIsInvisible` | src/lib/enginePerformance.ts:28 | a row with other than four fields is dropped and leaves the other rows unchanged |
| `VibrationParser.FullRowInPlace` | src/lib/enginePerformance.ts:28-35 | a four-field row is kept between the rows kept before and after it |
| `VibrationParser.DroppedLineIsInvisible` | src/lib/enginePerformance.ts:26-36 | a line with other than four fields is dropped without affecting the other lines |
| `VibrationParser.KeptLineInPlace` | src/lib/enginePerformance.ts:26-36 | a four-field line contributes its fields between those of the lines around it |
| `VibrationParser.KeptIndices` | src/lib/enginePerformance.ts:26-36 | the kept-row indices are in range, point at four-field rows, strictly increase and include every four-field row |
| `VibrationParser.KeepRowsFollowsIndices` | src/lib/enginePerformance.ts:26-36 | kept row k is the row at the k-th kept index, so the filter keeps order and emits nothing else |
| `VibrationParser.DataRowsAreTheFourFieldLines` | src/lib/enginePerformance.ts:22-36 | output row k is the fields of text line `idx[k] + 1` for strictly increasing `idx`; the header (line 0) is never emitted, and every later four-field line is |
| `VibrationParser.HeaderNeverEmitted` | src/lib/enginePerformance.ts:25-26 | whatever the header line says, the rows come only from the text after its newline |
| `VibrationParser.SingleLineYieldsNothing` | src/lib/enginePerformance.ts:22-26 | text without a newline gives no rows, even if that one line has four fields |
| `VibrationParser.MalformedRowBetweenGoodRows` | src/lib/enginePerformance.ts:22-36 | header, good row, bad row, good row: the bad row is dropped and the two good rows are kept in order |
| `VibrationParser.TrailingWhitespaceIgnored` | src/lib/enginePerformance.ts:27 | trailing whitespace, such as a CRLF file's carriage return, does not change a line's fields |
| `VibrationParser.CleanLineFields` | src/lib/enginePerformance.ts:27 | a line with no whitespace at either end splits into the comma-free pieces it was joined from |

## Left out

- `fetch(filePath)` and `response.text()` (lines 18-19) are network I/O. The method takes the fetched body as an `Option<string>`, and `None` stands for a failed fetch or body read. The `catch` (lines 39-42) then returns the empty sequence. The `console.error` log is not modelled.
- `parseInt(values[0], 10)` and `parseFloat` (lines 30-33) are function parameters (`parseTime`, `parseCoord`). Partial parses and NaN are therefore not modelled.
- NaN and infinite values. A NaN coordinate makes `delta > spikeThreshold` false, so such a pair is never a spike, and a NaN time or window bound makes the window test false. Times, bounds and coordinates here are exact reals, so these cases do not arise.
- IEEE double arithmetic, `Math.pow` and `Math.sqrt` (lines 61-65). The model compares the squared distance with 100 over reals, and `SquaredComparisonIsExact` shows this decides the same as comparing the exact root with 10. Rounding near the threshold is not modelled.
- The `!vibrationData` null check (line 49). A Dafny sequence cannot be null.
- JavaScript strings are UTF-16 code units, while Dafny strings are sequences of Unicode scalar values. The newline, the comma and every character `trim` removes are single code units, so this does not change the result for those characters. Surrogate pairs are not modelled.
- The unused `fs` and `csv-parser` imports (lines 1-2).
- The rest of the repository (UI components, the React performance context, the database and vehicle-registry services, the encryption wrapper) is not part of this model.
- The same inputs always giving the same score is not stated as a lemma: it holds because `Score` is a Dafny function.
