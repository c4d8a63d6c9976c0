# Invalid-entry analysis of a visual-field test, in Dafny

The visual-field test runs in VR. It writes one results line per stimulus:
- the index;
- the stimulus position as a three-component vector `(x, y, z)`;
- whether the subject responded;
- two times;
- whether the subject was looking at the stimulus (the script calls this flag `was_looking_at_centre`).

`scripts/invalid.py` reads these results back. It counts, for each position, the trials the subject answered while not looking at the stimulus. These "invalid entries" are drawn as a scatter plot, coloured yellow, orange or red for one, two or three entries.

This project models lines 15–48 of that script, where the logic is:

- **Reading the file** (`ResultsFile`, lines 15–22).
  - The first line holds a timestamp and is skipped.
  - Every later line is stripped and split on commas.
  - Splitting on commas also cuts the position into three pieces. The script trims `(` off the first piece and spaces and `)` off the third, and deletes the middle one.
  - So the coordinates the script later calls `x` and `y` are the vector's first and third components. The model follows the code, not the names.
  - A line with fewer than four fields raises `IndexError`.
  - `PyStr` holds the Python string operations this needs: `strip`, `split` and `join`.
- **Counting** (`InvalidCounts`, lines 24–32).
  - Every record is unpacked into seven names; any other length raises `ValueError`.
  - A record whose response is `'True'` and whose gaze flag is `'False'` has its two coordinates converted with `float`.
  - The count for that key goes up in a dictionary that keeps insertion order.
- **Classifying** (`Colours`, lines 34–48).
  - The dictionary becomes the point lists `x_vals` and `y_vals` and a list of colours.
  - Counts 1, 2 and 3 map to yellow, orange and red; any other count appends no colour.
  - Line 48 maps the colours back to numbers.
- **The whole of lines 15–48** (`Script`): from the file's lines to the three lists that line 60 passes to `ax.scatter`.

Every loop of the script is a `method` with a `while` loop, proved equal to a recursive specification function:
- `ResultsFile.ReadRecords`, specified by `ReadAll`;
- `InvalidCounts.CountInvalid`, specified by `InvalidKeys` with `Tally`;
- `Colours.Classify`, specified by `ColoursFor`.

The in-place edits of one line (lines 20-21) are the method `ResultsFile.ParseLine`, which has no loop. It is proved equal to the function `Parse`.

The script's meaning is proved as lemmas about those functions.

Python's `dict` is modelled as `Counter`: a map from keys to counts, together with the sequence of keys in insertion order. `Dict` is the subtype in which the order holds each key of the map exactly once. `float(...)` is a parameter `string -> Option<F>`, with `None` standing for the `ValueError` it raises. Two positions are the same key exactly when their converted coordinates are equal.

The script has no exception handler. The first exception ends the run, and the model returns it as `Err` with a `ScriptError` that says which line or record raised it.

## Model

| member | source | states |
|---|---|---|
| `PyStr.StripSpec` | MSc_project_2738074T/scripts/invalid.py:19-20 | `strip` removes exactly the longest runs of the given characters at both ends, so that what remains neither starts nor ends with one of them |
| `PyStr.StripUnique` | MSc_project_2738074T/scripts/invalid.py:19-20 | any string that is `s` without such runs at its ends is what `strip` returns, so `strip` is determined by that description |
| `PyStr.StripPadded` | MSc_project_2738074T/scripts/invalid.py:19-20 | stripping a string padded on both sides with strip characters gives the string back, when its own ends are not strip characters |
| `PyStr.IndexFromSpec` | MSc_project_2738074T/scripts/invalid.py:19 | the separator search used by `split` returns `j` if and only if no separator lies between the start and `j`, and `j` is a separator or the end |
| `PyStr.Split` | MSc_project_2738074T/scripts/invalid.py:19 | `split` on one separator always gives at least one piece |
| `PyStr.SplitPiecesFree` | MSc_project_2738074T/scripts/invalid.py:19 | no piece of `split` contains the separator |
| `PyStr.JoinSplit` | MSc_project_2738074T/scripts/invalid.py:19 | joining the pieces of `split` with the separator gives the original string back |
| `PyStr.SplitJoin` | MSc_project_2738074T/scripts/invalid.py:19 | splitting joined pieces that contain no separator gives the pieces back |
| `ResultsFile.SplitLine` | MSc_project_2738074T/scripts/invalid.py:19 | a stripped and split line has at least one field |
| `ResultsFile.Record` | MSc_project_2738074T/scripts/invalid.py:20-21 | the record of a line with at least four fields has exactly one field fewer than the split line |
| `ResultsFile.RecordFields` | MSc_project_2738074T/scripts/invalid.py:20-21 | the record keeps field 0, has field 1 without `(` at its ends, has old field 3 without spaces or `)` at its ends in place of the deleted field 2, and keeps fields 4 onwards in order |
| `ResultsFile.ParseLine` | MSc_project_2738074T/scripts/invalid.py:19-21 | overwriting fields 1 and 3 with their trimmed forms in place and deleting field 2 gives the record `Parse` describes; a line with fewer than four fields gives the `IndexError` case |
| `ResultsFile.ReadRecords` | MSc_project_2738074T/scripts/invalid.py:15-22 | the reading loop returns what `ReadAll` describes: the records, or the first `IndexError` |
| `ResultsFile.ReadAllErrorPersists` | MSc_project_2738074T/scripts/invalid.py:15-22 | once a prefix of the file raises, the whole file raises the same error |
| `ResultsFile.ReadAllSucceeds` | MSc_project_2738074T/scripts/invalid.py:16-22 | the file is read if and only if every line after the first splits into at least four fields |
| `ResultsFile.ReadAllRecords` | MSc_project_2738074T/scripts/invalid.py:16-22 | a read file gives no record for line 0 and exactly one record per later line, record `k` being the parse of line `k + 1`, in file order |
| `ResultsFile.ReadAllFirstError` | MSc_project_2738074T/scripts/invalid.py:20 | a file that is not read fails with `IndexError` at the first line after the first that has fewer than four fields, and every earlier line parses |
| `ResultsFile.SplitWrittenLine` | MSc_project_2738074T/scripts/invalid.py:19 | stripping and splitting a written line whose fields contain no comma, bracket or white space gives back exactly those eight pieces |
| `ResultsFile.ParseWrittenLine` | MSc_project_2738074T/scripts/invalid.py:19-21 | a written line parses into seven fields: index, first and third coordinate, response, the two times and the gaze flag; the middle coordinate is dropped |
| `InvalidCounts.Unpack` | MSc_project_2738074T/scripts/invalid.py:27 | the unpacking succeeds if and only if the record has exactly seven fields, and then gives those fields back under their names |
| `InvalidCounts.WrongLengthRaises` | MSc_project_2738074T/scripts/invalid.py:27 | a record without exactly seven fields stops the loop with the unpacking error for that record |
| `InvalidCounts.ValidRecordIgnored` | MSc_project_2738074T/scripts/invalid.py:28 | a seven-field record that fails line 28's test (`IsInvalid`: response `'True'` with gaze flag `'False'`) changes nothing; `Contribution` is lines 27-29 for one record |
| `InvalidCounts.InvalidRecordAppended` | MSc_project_2738074T/scripts/invalid.py:28-29 | a record that passes the test `IsInvalid` and whose coordinates convert adds exactly its key; this is the `Contribution` of the record |
| `InvalidCounts.ErrorPersists` | MSc_project_2738074T/scripts/invalid.py:27-29 | once a prefix of the records raises, the whole loop raises the same error |
| `InvalidCounts.InvalidKeysCounted` | MSc_project_2738074T/scripts/invalid.py:27-29 | a successful loop yields one key per record that passes the test, and each key as many times as there are such records at that position |
| `InvalidCounts.TallyKeys` | MSc_project_2738074T/scripts/invalid.py:30-32 | after `Increment` (lines 30-32: insert with 0 at the end of the order if new, then add one) for each key in turn, a key is in the dict, and in its insertion order, if and only if it was counted |
| `InvalidCounts.TallyCounts` | MSc_project_2738074T/scripts/invalid.py:30-32 | each key's count is the number of times it was counted |
| `InvalidCounts.TallyNoRepeats` | MSc_project_2738074T/scripts/invalid.py:30-31 | each key is inserted into the order only once |
| `InvalidCounts.TallyValid` | MSc_project_2738074T/scripts/invalid.py:30-32 | the dict's order holds each key of its map exactly once |
| `InvalidCounts.TallyOrder` | MSc_project_2738074T/scripts/invalid.py:30-31 | the keys are in the order of their first occurrence |
| `InvalidCounts.TallyTotal` | MSc_project_2738074T/scripts/invalid.py:30-32 | the counts add up to the number of keys counted |
| `InvalidCounts.TallyOfRecords` | MSc_project_2738074T/scripts/invalid.py:28-32 | a position is a key if and only if some record there passes the test, and its count is the number of such records |
| `InvalidCounts.TallyOfRecordsTotal` | MSc_project_2738074T/scripts/invalid.py:28-32 | the counts add up to the number of records that pass the test |
| `InvalidCounts.CountInvalid` | MSc_project_2738074T/scripts/invalid.py:27-32 | the counting loop raises if and only if `InvalidKeys` does, with the same error, and otherwise leaves the dict `Tally` builds from the keys |
| `Colours.Numeric` | MSc_project_2738074T/scripts/invalid.py:47 | every colour's number is 1, 2 or 3 |
| `Colours.ColourOf` | MSc_project_2738074T/scripts/invalid.py:40-45 | a count gets a colour if and only if it is 1, 2 or 3, and that colour's number is the count |
| `Colours.ColourOfNumeric` | MSc_project_2738074T/scripts/invalid.py:47 | the colour of each colour's number is that colour, so line 47 inverts lines 40-45 |
| `Colours.Classify` | MSc_project_2738074T/scripts/invalid.py:37-45 | one point per key, in the dict's order, with the key's first and second coordinates; the colours are those `ColoursFor` gives for the counts in that order |
| `Colours.NumericCounts` | MSc_project_2738074T/scripts/invalid.py:48 | one number per colour, each mapped by the colour rule back to that colour |
| `Colours.NumericCountsInRange` | MSc_project_2738074T/scripts/invalid.py:47-48 | `numeric_counts` is the sequence of counts, in dict order, filtered to those from 1 to 3 |
| `Colours.ColoursForLength` | MSc_project_2738074T/scripts/invalid.py:40-45 | there are never more colours than counts, and as many if and only if every count is from 1 to 3 |
| `Colours.TallyCountsInOrder` | MSc_project_2738074T/scripts/invalid.py:30-32 | every count in the dict's order is at least 1 and is the number of times its key was counted |
| `Colours.CountIsNumInvalid` | MSc_project_2738074T/scripts/invalid.py:28-32 | the count at each place of the dict's order is the number of records at that key that pass the test, at least one |
| `Colours.AtMostThreeInRange` | MSc_project_2738074T/scripts/invalid.py:40-45 | when no position has more than three invalid records, every count is from 1 to 3 |
| `Colours.InRangeAtMostThree` | MSc_project_2738074T/scripts/invalid.py:40-45 | when every count is at most 3, no position has more than three invalid records |
| `Colours.AlignedIffAtMostThree` | MSc_project_2738074T/scripts/invalid.py:37-45 | there is one colour per point if and only if no position has more than three invalid records |
| `Colours.RepeatedRecordKeys` | MSc_project_2738074T/scripts/invalid.py:27-29 | `n` copies of a record that passes the test give `n` equal keys |
| `Colours.RepeatedKeyTally` | MSc_project_2738074T/scripts/invalid.py:30-32 | `n` equal keys give a dict with that one key and count `n` |
| `Colours.MoreThanThreeAtOnePosition` | MSc_project_2738074T/scripts/invalid.py:40-45 | more than three invalid records at one position give one point and no number for it |
| `Colours.FourAtOnePosition` | MSc_project_2738074T/scripts/invalid.py:40-45 | four identical invalid records at position (1, 2) give one point and an empty `numeric_counts` |
| `Colours.CappedColourOf` | MSc_project_2738074T/scripts/invalid.py:40-45 | with the last branch widened to every count of three or more, a count gets a colour if and only if it is positive, and that colour's number is the count capped at 3 |
| `Colours.CappedColoursAligned` | MSc_project_2738074T/scripts/invalid.py:40-45 | under the widened rule, positive counts get one colour each, in order, whose number is the count capped at 3 |
| `Colours.CappedAlignedForRecords` | MSc_project_2738074T/scripts/invalid.py:37-45 | under the widened rule, whatever the records, there is one colour per point |
| `Script.Run` | MSc_project_2738074T/scripts/invalid.py:15-48 | the script up to line 48 returns what `PlotOf` describes: the first exception, or the point lists and numbers of the dict counted from the read records |
| `Script.PointOfPosition` | MSc_project_2738074T/scripts/invalid.py:37-39 | a position with an invalid record is plotted, at the place of its key in the dict's order |
| `Script.PlotPoints` | MSc_project_2738074T/scripts/invalid.py:37-39 | the points are exactly the positions with at least one invalid record |
| `Script.PlotOrder` | MSc_project_2738074T/scripts/invalid.py:30-39 | no position is plotted twice, and the points are in the order of the first invalid record at each position |
| `Script.PlotMeaning` | MSc_project_2738074T/scripts/invalid.py:37-48 | when the script gets past line 48, the results are as follows. There is a point for every position with an invalid record and for no other. No position is plotted twice, and the points are in the order of the first invalid record at each position. The numbers are the counts from 1 to 3 in point order. There is a number for every point if and only if no position holds more than three invalid records |

## Left out

- Command-line handling and opening the file (lines 9–10 and 15) are left out. The file is given as the sequence of its lines. A line may keep its terminator, which `strip()` removes like any other white space. Python's universal-newline translation happens before the lines are given.
- Everything from line 50 on is left out: the colour map, figure, scatter plot, colour bar, labels, output path and `savefig`. It is drawing through matplotlib and writing to the file system. `Script.Plot` holds what line 60 receives; what `ax.scatter` does with a `c` list of another length than `x_vals` is not modelled.
- The semantics of `float(...)` is left out. It is the parameter `float: string -> Option<F>`, so whether `"1"` and `"1.0"` are the same key is up to that function. Python's float equality, where NaN is unequal to itself, is not modelled either: keys are equal when their values of `F` are.
- The C# scheduler, threshold staircase and trial logging are not part of this model. Line 287 of `StimulusGenerator.cs` is used only for the shape of a results line, in `ResultsFile.WrittenLine`. That a `Vector3` prints as `(x, y, z)` with a comma and a space between components is Unity's formatting. It is assumed, not shown in the source.
- `PyStr.Split` models `str.split` only for a one-character separator without a limit, which is the only form the script uses.
- `str.strip()` with no argument strips the characters of Python's `str.isspace()`. They are listed in `PyStr.IsSpace`.

## Findings

| source | as written | input that shows it | evidently intended | confidence | as-written member | corrected member |
|---|---|---|---|---|---|---|
| MSc_project_2738074T/scripts/invalid.py:40-45 | A count above 3 matches no branch. The point is still added to `x_vals` and `y_vals`, but no colour is added, so `numeric_counts` becomes shorter than `x_vals`. What line 60 then draws is up to matplotlib and is not modelled. | A results file of a timestamp line and four lines `0,(1, 0, 2),True,5.0,0.5,False` (four answers at the same position while not looking at the stimulus). Each line parses into the record `FourAtOnePosition` starts from. Plans may repeat positions, so this can happen in a run. | Every plotted point gets a colour, with three or more invalid entries shown in the top colour labelled "3 Invalid Entries". | medium; not executed | `Colours.MoreThanThreeAtOnePosition` | `Colours.CappedAlignedForRecords` |

`Colours.Classify`, `Colours.ColoursFor` and `Script.Run` keep the rule as the script writes it. The widened rule is `Colours.CappedColourOf` with `Colours.CappedColoursFor`, and it is proved to colour every point for any records.
