# Toastmasters meeting-role helper, modelled in Dafny

The application is a browser client for members who hold a meeting role. There is a
page per role. Each page keeps its state in the browser, edits it through small update
functions, and some pages download a CSV report. This project models the logic of those
pages as pure Dafny functions over immutable datatypes:

- **Timer.** `formatTime`, `getTimerColor` and `getTimerStatus` from the timer
  utilities (`TimerUtils`). The Timer page's state machine (`TimerPage`): start, pause,
  reset, the one-second interval tick, the preset change and the custom-threshold
  update.
- **Ah-Counter** (`AhCounter`). Ten filler-word counters per speaker, with increment,
  and decrement clamped at zero. Also the per-row total, the cell highlight, the "most
  common filler" summary with its tie rule, and the unquoted CSV report.
- **Grammarian** (`Grammarian`). The usage and phrase tables, the summary filters, the
  empty state, the init effect and the two-section CSV report.
- **Wordmaster** (`Wordmaster`). The word card, the usage table, the summary count and
  the CSV report.
- **Table Topics** (`TableTopics`). The theme and the speaker/topic table.
- **Speech Evaluator** and **General Evaluator** (`SpeechEvaluator`, `GeneralEvaluator`).
  Fixed-shape form records with a default value and one-field updates.

Shared pieces:
- `Table`: the filter used by every delete, the map used by every edit, and the
  `Speaker n` name of a new row.
- `Text`: decimal rendering and parsing, `padStart`, `join`, `split`, and `trim()`
  blankness.
- `Csv`: the three ways the reports write a field, plus a reader for one line.

A field is written in one of three ways:
- as is (`Raw`);
- between quotes without escaping (`Wrapped`);
- between quotes with inner quotes doubled (`Quoted`), the rule of section 2, item 7
  of RFC 4180.

The reader lets the lemmas say which fields a spreadsheet gets back unchanged and which
it does not.

Each page's state is an argument, and each operation returns the next state. Row ids
come from `Date.now()` in the application; here they are parameters. The interval
callback is an explicit `Tick` event that exists only while an interval handle is held.

## Model

| member | source | states |
|---|---|---|
| TimerUtils.TimerConfigsAscending | client/src/lib/timer-utils.ts:12-28 | the utility configurations are exactly speech, tableTopics and evaluation, each with green ≤ yellow ≤ red |
| TimerUtils.FormatTime | client/src/lib/timer-utils.ts:30-34 | for elapsed seconds the text is minutes in decimal without a leading zero, a colon and exactly two digits; the minutes read as seconds / 60 and the two digits as seconds % 60, below 60; the text starts with a minus sign exactly when the seconds are negative |
| TimerUtils.JsRem60 | client/src/lib/timer-utils.ts:32 | JavaScript's `seconds % 60`: differs from the seconds by a multiple of 60, lies strictly between -60 and 60, and takes the sign of the seconds |
| TimerUtils.NegativeTimeShownMinuteEarly | client/src/lib/timer-utils.ts:30-34 | a negative threshold shows floored minutes and truncated, non-positive seconds, so a value that is not a whole minute reads as sixty seconds further below zero |
| TimerUtils.MinusHalfMinute | client/src/pages/timer.tsx:209 | a threshold of -30 seconds is shown as `-1:-30` |
| TimerUtils.FormatTimeRoundTrip | client/src/lib/timer-utils.ts:31-33 | reading `m:ss` back as m·60 + ss gives the original seconds |
| TimerUtils.GetTimerColor | client/src/lib/timer-utils.ts:36-45 | red exactly when seconds ≥ red; yellow exactly when yellow ≤ seconds < red; green exactly when green ≤ seconds and below yellow and red; no colour otherwise, so one of the four always holds |
| TimerUtils.BandIsHighestReached | client/src/lib/timer-utils.ts:36-45 | the colour shown has its threshold reached, and no band whose threshold is reached ranks above it |
| TimerUtils.BandMonotone | client/src/lib/timer-utils.ts:36-45 | as seconds grow the colour never moves down the order none < green < yellow < red |
| TimerUtils.AscendingBands | client/src/lib/timer-utils.ts:36-45 | with ascending thresholds, none, green and yellow each cover exactly the interval from their threshold to the next |
| TimerUtils.Band.ColorClass | client/src/pages/timer.tsx:201 | the class is empty, so the card falls back to `bg-card`, exactly when no threshold has been reached |
| TimerUtils.ColorClassesDistinct | client/src/lib/timer-utils.ts:36-45 | the four bands have four different classes |
| TimerUtils.GetTimerStatus | client/src/lib/timer-utils.ts:47-56 | "Time's up!" exactly when running at or past red, "Running" exactly when running before red, "Paused" exactly when stopped with time on the clock, "Ready" otherwise |
| TimerUtils.StatusLabelsDistinct | client/src/lib/timer-utils.ts:47-56 | the four status texts of `Status.Label` differ, so the text identifies the status |
| TimerPage.PresetsAscending | client/src/pages/timer.tsx:21-42 | four presets, the last one named Custom, each with ascending thresholds |
| TimerPage.CurrentConfig | client/src/pages/timer.tsx:58 | the custom thresholds when preset 3 is selected; otherwise the selected preset's own, which are ascending |
| TimerPage.StartTimer | client/src/pages/timer.tsx:60-67 | no change while a handle exists; otherwise running with a handle, elapsed time and preset kept |
| TimerPage.Tick | client/src/pages/timer.tsx:64-66 | a tick exists exactly while a handle is held and adds exactly one second, nothing else |
| TimerPage.PauseTimer | client/src/pages/timer.tsx:69-75 | not running and no handle afterwards; elapsed time, preset and custom thresholds kept |
| TimerPage.ResetTimer | client/src/pages/timer.tsx:77-84 | zero seconds, not running and no handle from any state; preset and custom thresholds kept |
| TimerPage.ResetIdempotent | client/src/pages/timer.tsx:77-84 | resetting twice equals resetting once |
| TimerPage.HandlePresetChange | client/src/pages/timer.tsx:86-89 | the timer is reset and the chosen preset selected; the custom thresholds are kept |
| TimerPage.UpdateCustomTime | client/src/pages/timer.tsx:91-96 | the chosen threshold becomes minutes · 60; the other two thresholds and the rest of the state are kept |
| TimerPage.Step | client/src/pages/timer.tsx:60-96 | an event fails exactly when it is a tick without a handle or a preset index out of range |
| TimerPage.RunKeepsValid | client/src/pages/timer.tsx:60-84 | from a valid state, every sequence of events keeps the running flag equal to holding a handle, and keeps the preset in range |
| TimerPage.InitialValid | client/src/pages/timer.tsx:51-58 | the mount state is valid and shows the first preset's thresholds |
| TimerPage.TickOnlyWhileRunning | client/src/pages/timer.tsx:60-75 | in a valid state the clock can advance exactly while running |
| TimerPage.StartThenPause | client/src/pages/timer.tsx:60-75 | start then pause equals pause alone and keeps the elapsed time |
| TimerPage.StatusShowsRunning | client/src/pages/timer.tsx:106-107 | in a valid state the status is "Running" or "Time's up!" exactly while a handle is held, and never "Time's up!" when stopped |
| AhCounter.FillersListEachOnce | client/src/pages/ah-counter.tsx:8-21 | the ten counters, in record order, each listed exactly once |
| AhCounter.Set | client/src/pages/ah-counter.tsx:61 | one counter takes the value; the other nine, the id and the name are kept |
| AhCounter.NonNegativeByFiller | client/src/pages/ah-counter.tsx:8-21 | a row is non-negative exactly when each of its ten counters is |
| AhCounter.GetTotal | client/src/pages/ah-counter.tsx:74-77 | the total of a row with no negative counter is not negative |
| AhCounter.TotalIsSum | client/src/pages/ah-counter.tsx:74-77 | the total is the sum of the ten counters taken in record order |
| AhCounter.TotalAfterSet | client/src/pages/ah-counter.tsx:74-77 | changing one counter changes the total by exactly the same amount |
| AhCounter.NewRow | client/src/pages/ah-counter.tsx:31-44 | a new row has the given id, the name `Speaker n+1`, ten zero counters and a zero total |
| AhCounter.AddRow | client/src/pages/ah-counter.tsx:30-46 | exactly one row is appended, named after the old length plus one, with zero counters; earlier rows unchanged |
| AhCounter.DeleteRow | client/src/pages/ah-counter.tsx:48-50 | no row with the id remains; every other row remains; the length is kept exactly when no row had the id |
| AhCounter.UpdateName | client/src/pages/ah-counter.tsx:52-56 | matching rows take the name and keep everything else; other rows unchanged |
| AhCounter.IncrementCell | client/src/pages/ah-counter.tsx:58-64 | matching rows gain one on that counter and their total rises by one; other counters and other rows unchanged |
| AhCounter.DecrementCell | client/src/pages/ah-counter.tsx:66-72 | matching rows lose one on that counter but not below zero; a zero counter leaves the row unchanged; other rows unchanged |
| AhCounter.ButtonsKeepNonNegative | client/src/pages/ah-counter.tsx:58-72 | incrementing or decrementing never makes a counter of a non-negative table negative |
| AhCounter.GetCellBackgroundColor | client/src/pages/ah-counter.tsx:79-83 | orange exactly above 10, yellow exactly for 6 to 10, no highlight exactly at 5 or below |
| AhCounter.CellColor.ClassName | client/src/pages/ah-counter.tsx:79-83 | the class is empty exactly when the cell has no highlight |
| AhCounter.ClassNamesDistinct | client/src/pages/ah-counter.tsx:79-83 | the three highlights have three different classes |
| AhCounter.LastMaxIndex | client/src/pages/ah-counter.tsx:131-133 | the left fold `a[1] > b[1] ? a : b` picks a maximal counter, and every later counter is strictly smaller |
| AhCounter.MostCommon | client/src/pages/ah-counter.tsx:131-133 | the most common filler has the largest count, and every filler after it in record order has a strictly smaller count, so ties go to the later filler |
| AhCounter.AllZeroMostCommonIsOther | client/src/pages/ah-counter.tsx:131-133 | a row of zeros reports `other` |
| AhCounter.GenerateSummary | client/src/pages/ah-counter.tsx:125-135 | one entry per row in order, with the row's name, its total and the key of a maximal counter |
| AhCounter.HeadersMatchColumns | client/src/pages/ah-counter.tsx:87 | twelve headings: Name, the ten counter labels in record order, Total |
| AhCounter.CsvCells | client/src/pages/ah-counter.tsx:90-103 | twelve unquoted fields, the name first and the total in decimal last |
| AhCounter.CsvCellsCounters | client/src/pages/ah-counter.tsx:91-101 | the ten fields between name and total are the ten counters in record order, in decimal |
| AhCounter.CsvCellsPlain | client/src/pages/ah-counter.tsx:92-102 | every field after the name is a number with no comma, quote or line break, so it reads back |
| AhCounter.Records | client/src/pages/ah-counter.tsx:106-109 | the heading record first, then the record of each row in table order |
| AhCounter.CsvLines | client/src/pages/ah-counter.tsx:106-109 | the heading line, then one line per row in table order: 1 + rows lines |
| AhCounter.CsvText | client/src/pages/ah-counter.tsx:106-109 | the report text begins with the heading line; `AhCounter.CsvTextSplitsIntoLines` gives its lines back |
| AhCounter.HeaderLineParses | client/src/pages/ah-counter.tsx:107 | the heading line reads back as the twelve headings |
| AhCounter.RowLineParses | client/src/pages/ah-counter.tsx:108 | a row line reads back as twelve fields: the name, the ten counters and the total, when the name has no comma and does not start with a quote |
| AhCounter.CommaInNameShiftsColumns | client/src/pages/ah-counter.tsx:108 | a comma in a name makes the line read as thirteen fields, with the name split in two |
| AhCounter.CsvTextSplitsIntoLines | client/src/pages/ah-counter.tsx:106-109 | when no name holds a line break, splitting the report at line breaks gives exactly its lines |
| AhCounter.InitIfEmpty | client/src/pages/ah-counter.tsx:137-142 | an empty table gets one fresh row; a non-empty table is untouched |
| Grammarian.AddUsageRow | client/src/pages/grammarian.tsx:36-47 | one usage row `Speaker n+1` with empty notes is appended; earlier rows and the phrase list unchanged |
| Grammarian.AddPhraseRow | client/src/pages/grammarian.tsx:49-59 | one phrase row `Speaker n+1` with an empty phrase is appended; earlier rows and the usage list unchanged |
| Grammarian.DeleteUsageRow | client/src/pages/grammarian.tsx:61-66 | only the usage list loses the rows with the id; all other usage rows remain |
| Grammarian.DeletePhraseRow | client/src/pages/grammarian.tsx:68-73 | only the phrase list loses the rows with the id; all other phrase rows remain |
| Grammarian.SetUsage | client/src/pages/grammarian.tsx:79 | the chosen field takes the value; the id and the other fields are kept |
| Grammarian.UpdateUsageRow | client/src/pages/grammarian.tsx:75-82 | on matching usage rows only the chosen field changes; ids never change; the phrase list is untouched |
| Grammarian.SetPhrase | client/src/pages/grammarian.tsx:88 | the chosen field takes the value; the id and the other field are kept |
| Grammarian.UpdatePhraseRow | client/src/pages/grammarian.tsx:84-91 | on matching phrase rows only the chosen field changes; ids never change; the usage list is untouched |
| Grammarian.InitIfEmpty | client/src/pages/grammarian.tsx:130-138 | an empty list gets exactly one `Speaker 1` row with the given id and empty fields; a non-empty list is untouched |
| Grammarian.UsageSummary | client/src/pages/grammarian.tsx:310-315 | exactly the usage rows with a non-blank note are listed, and the list is empty exactly when no row has one |
| Grammarian.PhraseSummary | client/src/pages/grammarian.tsx:338-343 | exactly the phrase rows with a non-blank phrase are listed, and the list is empty exactly when no row has one |
| Grammarian.ShowsEmptyState | client/src/pages/grammarian.tsx:357-358 | the empty-state message shows exactly when both summaries are empty |
| Grammarian.SummaryOfAddedUsageRow | client/src/pages/grammarian.tsx:314-315 | appending a row appends it to the summary exactly when it has a note, so the summary keeps table order |
| Grammarian.UsageCells | client/src/pages/grammarian.tsx:101 | a usage line carries name, correct and incorrect in that order; the notes always read back, the name exactly when it holds no quote |
| Grammarian.PhraseCells | client/src/pages/grammarian.tsx:111 | a phrase line carries speaker and phrase in that order; the phrase always reads back, the speaker exactly when it holds no quote |
| Grammarian.CsvLines | client/src/pages/grammarian.tsx:95-114 | usage rows + phrase rows + 5 lines: the titles, the headings and the blank separator at fixed positions, with the rows in table order between them |
| Grammarian.CsvText | client/src/pages/grammarian.tsx:95-114 | the report text begins with the `USAGE TRACKING` title; `Grammarian.CsvTextSplitsIntoLines` gives its lines back |
| Grammarian.UsageLineParses | client/src/pages/grammarian.tsx:101 | a usage line reads back as name, correct and incorrect, for any notes, when the name has no quote |
| Grammarian.PhraseLineParses | client/src/pages/grammarian.tsx:111 | a phrase line reads back as speaker and phrase, for any phrase, when the speaker has no quote |
| Grammarian.QuoteInNameBreaksLine | client/src/pages/grammarian.tsx:101 | a quote inside a name is not escaped: followed by anything but a quote or a comma, it makes the line unreadable |
| Grammarian.QuoteCommaInNameShiftsColumns | client/src/pages/grammarian.tsx:101 | a name holding a quote followed by a comma reads as two fields, so the line has four fields and the notes move one column right |
| Grammarian.CsvTextSplitsIntoLines | client/src/pages/grammarian.tsx:114 | when no field holds a line break, splitting the report at line breaks gives exactly its lines |
| Wordmaster.UpdateField | client/src/pages/wordmaster.tsx:34-39 | only the chosen field of the word card changes |
| Wordmaster.AddRow | client/src/pages/wordmaster.tsx:41-48 | one row `Speaker n+1` with an empty sentence is appended; earlier rows unchanged |
| Wordmaster.DeleteRow | client/src/pages/wordmaster.tsx:50-52 | no row with the id remains; every other row remains; no matching id means no change |
| Wordmaster.UpdateName | client/src/pages/wordmaster.tsx:54-58 | matching rows take the name; ids and sentences never change |
| Wordmaster.UpdateSentence | client/src/pages/wordmaster.tsx:60-64 | matching rows take the sentence; ids and names never change |
| Wordmaster.InitIfEmpty | client/src/pages/wordmaster.tsx:105-110 | an empty table gets exactly one `Speaker 1` row with the given id and an empty sentence; a non-empty table is untouched |
| Wordmaster.UsedWordCount | client/src/pages/wordmaster.tsx:261 | the count is zero exactly when no sentence is non-blank, and equals the row count exactly when every sentence is |
| Wordmaster.UsedWordCountIsPositions | client/src/pages/wordmaster.tsx:261 | the count of speakers who used the word equals the number of row positions whose sentence is not blank |
| Wordmaster.ShowsSummary | client/src/pages/wordmaster.tsx:256-261 | the summary shows exactly when the count of used words is positive |
| Wordmaster.WordOfTheDay | client/src/pages/wordmaster.tsx:259 | the word, or `Not set` when it is empty |
| Wordmaster.RowCells | client/src/pages/wordmaster.tsx:71-74 | a row line carries name and sentence in that order; the sentence always reads back, the name exactly when it has no comma and does not start with a quote |
| Wordmaster.RowLines | client/src/pages/wordmaster.tsx:71-74 | one line per row, in table order, with the name as is and the sentence quoted |
| Wordmaster.CsvLines | client/src/pages/wordmaster.tsx:66-89 | 5 + rows lines: word, meaning and example lines, an empty line, the heading, then one line per row |
| Wordmaster.CsvText | client/src/pages/wordmaster.tsx:85-89 | the report text begins with the word line; `Wordmaster.CsvTextSplitsIntoLines` gives its lines back |
| Wordmaster.WordInfoLinesParse | client/src/pages/wordmaster.tsx:79-80 | the meaning and example lines read back as their label and text, whatever the text holds |
| Wordmaster.WordLineParses | client/src/pages/wordmaster.tsx:78 | the unquoted word reads back when it has no comma and does not start with a quote |
| Wordmaster.RowLineParses | client/src/pages/wordmaster.tsx:71-74 | a row line reads back as name and sentence, for any sentence, when the name has no comma and does not start with a quote |
| Wordmaster.CsvTextSplitsIntoLines | client/src/pages/wordmaster.tsx:85-89 | when no field holds a line break, splitting the report at line breaks gives exactly its lines |
| TableTopics.UpdateTheme | client/src/pages/table-topics.tsx:25-30 | only the theme changes |
| TableTopics.AddRow | client/src/pages/table-topics.tsx:32-42 | one row `Speaker n+1` with an empty topic is appended; earlier rows and the theme unchanged |
| TableTopics.DeleteRow | client/src/pages/table-topics.tsx:44-49 | no row with the id remains; every other row remains; the theme is unchanged |
| TableTopics.UpdateRow | client/src/pages/table-topics.tsx:51-58 | on matching rows only the chosen field changes; ids, other rows and the theme never change |
| TableTopics.InitIfEmpty | client/src/pages/table-topics.tsx:60-65 | an empty table gets exactly one `Speaker 1` row with the given id and an empty topic, and the theme is kept; a non-empty page is untouched |
| TableTopics.AddThenDelete | client/src/pages/table-topics.tsx:32-49 | adding a row under a fresh id and deleting that id restores the page |
| SpeechEvaluator.Default | client/src/pages/speech-evaluator.tsx:34-53 | all six texts empty and all ten checkboxes clear |
| SpeechEvaluator.UpdateField | client/src/pages/speech-evaluator.tsx:55-60 | only the chosen text changes; the checkboxes are untouched |
| SpeechEvaluator.SetCheck | client/src/pages/speech-evaluator.tsx:65-68 | the chosen checklist entry takes the value |
| SpeechEvaluator.SetCheckKeepsOthers | client/src/pages/speech-evaluator.tsx:65-68 | every other checklist entry keeps its value |
| SpeechEvaluator.UpdateCheckbox | client/src/pages/speech-evaluator.tsx:62-70 | only the chosen checkbox changes; every text is untouched |
| SpeechEvaluator.Extensionality | client/src/pages/speech-evaluator.tsx:8-27 | the six texts and ten checkboxes determine the record |
| SpeechEvaluator.UpdateFieldIdempotent | client/src/pages/speech-evaluator.tsx:55-60 | the same text update twice equals once |
| SpeechEvaluator.UpdateCheckboxIdempotent | client/src/pages/speech-evaluator.tsx:62-70 | the same checkbox update twice equals once |
| SpeechEvaluator.TextAndCheckboxCommute | client/src/pages/speech-evaluator.tsx:55-70 | a text update and a checkbox update commute |
| SpeechEvaluator.CheckboxItemsEachOnce | client/src/pages/speech-evaluator.tsx:72-83 | ten items; `ItemIndex` maps each item's key back to its position, so every key is listed and none twice |
| GeneralEvaluator.Default | client/src/pages/general-evaluator.tsx:29-44 | all six checkboxes clear and all four notes empty |
| GeneralEvaluator.UpdateCheckbox | client/src/pages/general-evaluator.tsx:46-54 | only the chosen checkbox changes; the notes are untouched |
| GeneralEvaluator.UpdateTextarea | client/src/pages/general-evaluator.tsx:56-64 | only the chosen note changes; the checkboxes are untouched |
| GeneralEvaluator.Extensionality | client/src/pages/general-evaluator.tsx:7-22 | the six checkboxes and four notes determine the record |
| GeneralEvaluator.UpdateCheckboxIdempotent | client/src/pages/general-evaluator.tsx:46-54 | the same checkbox update twice equals once |
| GeneralEvaluator.UpdateTextareaIdempotent | client/src/pages/general-evaluator.tsx:56-64 | the same note update twice equals once |
| GeneralEvaluator.CheckboxUpdatesCommute | client/src/pages/general-evaluator.tsx:46-54 | updates of two different checkboxes commute |
| GeneralEvaluator.TextareaUpdatesCommute | client/src/pages/general-evaluator.tsx:56-64 | updates of two different notes commute |
| GeneralEvaluator.CheckboxAndTextareaCommute | client/src/pages/general-evaluator.tsx:46-64 | a checkbox update and a note update commute |
| GeneralEvaluator.CheckboxItemsEachOnce | client/src/pages/general-evaluator.tsx:66-73 | six items; `ItemIndex` maps each item's key back to its position, so every key is listed and none twice |
| Table.Keep | client/src/pages/ah-counter.tsx:49 | the filter keeps only selected elements of the input and every selected one; it is unchanged exactly when all are selected and empty exactly when none is |
| Table.KeepIsOrderedSubsequence | client/src/pages/ah-counter.tsx:48-50 | the filtered list is the input read at an increasing list of exactly the selected positions, so the kept rows keep their order |
| Table.KeepCount | client/src/pages/wordmaster.tsx:261 | the length of the filtered list equals the number of positions whose element is selected |
| Table.KeepAppend | client/src/pages/grammarian.tsx:315 | filtering a concatenation is concatenating the filtered parts |
| Table.UpdateWhere | client/src/pages/ah-counter.tsx:53-55 | same length; selected elements rewritten, all others unchanged |
| Table.SpeakerName | client/src/pages/ah-counter.tsx:33 | `Speaker ` followed by the decimal digits of the row count plus one, with no leading zero |
| Text.NatToString | client/src/lib/timer-utils.ts:33 | non-empty decimal digits, no leading zero, reading back as the number |
| Text.IntToString | client/src/pages/ah-counter.tsx:108 | digits without a leading zero, with a leading minus exactly for negative numbers, reading back as the number |
| Text.PadStart | client/src/lib/timer-utils.ts:33 | the string kept at the end, with pad characters in front up to the width |
| Text.SplitJoin | client/src/pages/ah-counter.tsx:106-109 | splitting a join at a separator no part contains gives the parts back |
| Text.JoinEnds | client/src/pages/wordmaster.tsx:85-89 | a join begins with the first part and ends with the last |
| Text.JoinAvoids | client/src/pages/ah-counter.tsx:108 | a character in neither the parts nor the separator is not in the join |
| Text.IsBlankIffTrimEmpty | client/src/pages/grammarian.tsx:310 | a text counts as blank exactly when `trim()` leaves the empty string |
| Csv.Escape | client/src/pages/grammarian.tsx:101 | doubling quotes never shortens the text and leaves text without quotes unchanged |
| Csv.EscapeLength | client/src/pages/grammarian.tsx:101 | doubling quotes adds exactly one character per quote |
| Csv.EscapeAddsOnlyQuotes | client/src/pages/grammarian.tsx:101 | doubling quotes adds no character other than the quote |
| Csv.UnescapeEscape | client/src/pages/grammarian.tsx:101 | undoubling the doubled quotes gives the original text |
| Csv.EncodeUnwraps | client/src/pages/wordmaster.tsx:71-74 | a field is written as is, or between a pair of quotes holding the text as is or with its quotes doubled |
| Csv.ReadQuotedEscape | client/src/pages/grammarian.tsx:101 | a reader gets back any text quoted with doubled quotes, and the rest of the line after it |
| Csv.ReadFieldQuoted | client/src/pages/grammarian.tsx:101 | a field quoted with doubled inner quotes reads back as its text, followed by the rest of the line |
| Csv.ReadFieldEncode | client/src/pages/wordmaster.tsx:71-74 | each of the three field writings reads back as its text, with the rest of the line, when the text is recoverable in that writing |
| Csv.ParseEncodeRecord | client/src/pages/wordmaster.tsx:86-88 | a line whose fields are each recoverable reads back as exactly the field texts |
| Csv.EncodeRecordSplitsAtCommas | client/src/pages/wordmaster.tsx:86-88 | a line whose encoded fields hold no comma splits at its commas into exactly those encodings |
| Csv.EncodeRecordAvoids | client/src/pages/wordmaster.tsx:86-88 | writing a line adds only commas and quotes to its fields' characters |
| Csv.RawRecordParses | client/src/pages/ah-counter.tsx:107 | a line of unquoted fields reads back as their texts when none has a comma or starts with a quote |
| Csv.RawRecordAvoids | client/src/pages/ah-counter.tsx:107 | a line of unquoted fields holds no character other than a comma that its fields lack |
| Csv.PairParses | client/src/pages/wordmaster.tsx:78-80 | a line of two recoverable fields reads back as exactly their two texts |
| Csv.SplitRawFieldParses | client/src/pages/ah-counter.tsx:108 | an unquoted field `a,b` followed by recoverable fields reads back as a, b and then the other texts |
| Csv.CommaInRawField | client/src/pages/ah-counter.tsx:108 | an unquoted field with a comma writes the same line as two fields |
| Csv.WrappedQuoteBreaksLine | client/src/pages/grammarian.tsx:101 | a quote inside a field wrapped without escaping, followed by anything but a quote or a comma, makes the whole line unreadable |
| Csv.WrappedQuoteCommaSplitsField | client/src/pages/grammarian.tsx:101 | a wrapped field holding a quote followed by a comma reads as two fields: the text before the quote, then the rest with a quote at its end |

## Left out

- Rendering: the JSX markup, the CSS classes other than the colour and highlight class
  names, and the dimming overlay.
- Persistence: `useLocalStorage` and the storage keys. Each page's state is an argument
  instead, and the stored defaults are the `Default` values.
- Download plumbing: `Blob`, the object URL, the hidden link and the date in the file
  name. The model stops at the report text.
- Time and ids: `Date.now()` ids are parameters, and the one-second `setInterval`
  period is not modelled (only the order of ticks is).
- The unmount cleanup of the Timer page (client/src/pages/timer.tsx:98-104): it clears
  the handle when the page goes away, which is outside the page's state.
- React scheduling: state updates are applied one after another. Where a handler
  computes the new row's name from the rendered `data` while appending to `prev`
  (client/src/pages/grammarian.tsx:36-59, client/src/pages/table-topics.tsx:32-42), the
  two agree in this sequential model. Effect ordering and dependency lists are not
  modelled.
- Grammarian.InitIfEmpty: it takes two separate ids. In the application both rows get
  `Date.now()` in the same effect, so they may share an id.
- TimerPage.UpdateCustomTime: `minutes` is an integer. The inputs' `parseFloat(...) || 0`
  allows fractional minutes, and the minutes shown are `seconds / 60`; floating point
  is not modelled.
- TimerUtils.FormatTime: it takes any integer, with JavaScript's floored minutes and
  truncating remainder. Fractional seconds, which custom thresholds of fractional minutes
  produce (client/src/pages/timer.tsx:209 formats them), are not modelled.
- The `timerConfigs` constants of the utility file (speech 180/210/240) are not the
  Timer page's `timerPresets` (speech 300/360/420). The page uses its own presets, so
  the model does too, and keeps both.
- TimerPage.Step: a preset index outside the four presets makes the event fail. The
  page only offers the four buttons.
- Text.IsBlank: it treats the six ASCII whitespace characters as blank. The full
  Unicode whitespace set of `trim()` is not modelled.
- Csv.ParseRecord is a lenient reader of one line. It accepts RFC 4180 quoted and bare
  fields and rejects a quoted field followed by anything but a comma. Line breaks
  inside quoted fields are not read. This is why the split lemmas require fields
  without line breaks. On the Wordmaster page that excludes ordinary input: the
  meaning, the example and each sentence are multi-line text areas
  (client/src/pages/wordmaster.tsx:150, :163 and :203), so
  `Wordmaster.CsvTextSplitsIntoLines` does not cover a report whose text areas hold a
  line break.
- The counters of the Ah-Counter are integers, so the model covers any integer value.
  JavaScript numbers lose precision above 2^53 and `toString()` switches to exponent
  notation from 1e21; neither is modelled. Non-negativity is an invariant the buttons keep (`AhCounter.ButtonsKeepNonNegative`),
  not a type.
- `Object.entries(row)` is taken to list the counters in record order, ah to other.
  This holds for rows the page creates, whose keys are inserted in that order.
- CSV quoting is decided by column, not by content: the Ah-Counter never quotes; the
  Grammarian and Wordmaster always quote some columns, some with quote doubling and some
  without.
- Routing, navigation and the role-selection page (client/src/App.tsx,
  client/src/components/navigation.tsx, client/src/pages/role-selection.tsx) are
  context only and not modelled.
- The download buttons' disabled states are rendering and are not modelled.
