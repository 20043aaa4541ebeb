# Monzphere AI module: incident analytics and streamed-answer formatting

This project models, in Dafny, the two pieces of logic at the heart of the
Monzphere AI module for Zabbix:

1. **Monthly incident analytics** (`actions/IAChrome.php`). For one trigger
   the report asks Zabbix for the events of the current month and of the
   previous month. Each month window runs from `mktime(0, 0, 0, month, 1, year)`
   to `mktime(23, 59, 59, month + 1, 0, year)`. `analyzeMonthEvents` then
   turns a month's events into statistics:
   - the number of problem events (value `TRIGGER_VALUE_TRUE`);
   - the average resolution time in hours, where a problem is paired with the
     first event whose id is the problem's `r_eventid`;
   - the number and percentage of problems that were acknowledged;
   - one record per acknowledgment, holding the acting user's display name and
     the message, or a placeholder when there is no comment.
2. **Streamed answer consolidation and formatting**
   (`assets/js/class.ia.chrome.js`). The browser's AI session streams chunks.
   A chunk that contains the previous raw chunk replaces the buffer; any other
   chunk is appended to it. The buffer is then passed through a chain of
   `replace` calls and a final `trim` before it is shown.

Modules:

- `Seqs`: order-preserving filter, counting by index, sums.
- `Text`: PHP `empty()` and `trim()`, JavaScript `\s`, `includes`, `trim`.
- `Calendar`: Gregorian month lengths, a day count, the month and day normalisation of `mktime`, the previous-month rule, the two report windows.
- `Incidents`: `analyzeMonthEvents` and its parts.
- `IncidentProperties`: lemmas that relate several calls of `analyzeMonthEvents`, plus worked scenarios.
- `Consolidation`: the chunk loop, as a left fold over a sequence of chunks.
- `Formatting`: the replace chain.

The user directory (`API::User()->get`) is a parameter `lookup` of type
`int -> LookupResult`. For one user id it either throws or returns a possibly
empty list of users. The event list is an input. The stream is a sequence of
strings. The current date is the parameter `now`.

Some behaviours of the code are easy to assume otherwise, and the model
follows the code:

- A throwing user lookup skips the acknowledgment (`continue`); it does not record "System". Only an empty result gives "System".
- A problem is paired with the event whose id equals the problem's `r_eventid`.
- The consolidated buffer does not only grow, as `Consolidation.SnapshotCanDropEarlierText` shows.

## Model

| member | source | states |
|---|---|---|
| Calendar.DaysInMonth | actions/IAChrome.php:43 | every month has 28 to 31 days; February has 29 exactly in Gregorian leap years |
| Calendar.NormalizeMonth | actions/IAChrome.php:42-43 | any month number, including 0 and 13, is carried into a valid month with the same month count from year 0 (month 13 is January of the next year) |
| Calendar.NormalizeDay | actions/IAChrome.php:43 | any day number within a valid month, including 0 and days past the month's end, gives the valid calendar date `day - 1` days after the month's first day on the Gregorian day count |
| Calendar.MkTime | actions/IAChrome.php:42-43 | `mktime` yields the valid date `day - 1` days after the first day of the normalised month, and keeps the given time of day |
| Calendar.YearLength | actions/IAChrome.php:42-43 | on the day count, a Gregorian leap year has 366 days and every other year 365 |
| Calendar.DaysBeforeDecember | actions/IAChrome.php:42-43 | January to November hold 335 days in a leap year and 334 otherwise, so December starts on day 336 or 335 of the year |
| Calendar.NextMonthFirstDay | actions/IAChrome.php:43 | the next month starts exactly the length of this month after this month's first day, across the year boundary too |
| Calendar.FirstDayMonotone | actions/IAChrome.php:43 | a later month starts no earlier than the end of an earlier month |
| Calendar.DayNumberInjective | actions/IAChrome.php:42-43 | two valid dates with the same day count are the same date, so the day count pins the date `mktime` returns |
| Calendar.JanuaryOverflow | actions/IAChrome.php:42 | day 32 of January is February 1 |
| Calendar.MarchDayZero | actions/IAChrome.php:43 | day 0 of March is February 29 in a leap year and February 28 otherwise |
| Calendar.LastDayIsDayZeroOfNext | actions/IAChrome.php:43 | day 0 of the following month is the last day of this month |
| Calendar.NextMonthNormalizes | actions/IAChrome.php:43 | normalising `month + 1` gives the month after the normalised `month`, including December to January |
| Calendar.MonthWindow | actions/IAChrome.php:42-43 | for any month number the window starts at 00:00:00 on day 1 and ends at 23:59:59 on the last day of the same normalised month |
| Calendar.PreviousMonth | actions/IAChrome.php:191-192 | the previous month is valid and exactly one month earlier; January gives December of the year before, any other month keeps the year |
| Calendar.ReportWindows | actions/IAChrome.php:187-195 | the current window runs from 00:00:00 on the 1st to 23:59:59 on the last day of the current month, and the previous window runs from 00:00:00 on the 1st to 23:59:59 on the last day of the previous month |
| Calendar.ReportWindowsAdjacent | actions/IAChrome.php:191-195 | the day after the previous window's last day is the current window's first day, so no day is missed or counted twice |
| Calendar.JanuaryReportsDecember | actions/IAChrome.php:191-192 | in January the previous window is all of December of the year before |
| Calendar.FebruaryWindowEnd | actions/IAChrome.php:43 | February's window ends on the 29th in leap years and on the 28th otherwise |
| Calendar.DecemberWindowEnd | actions/IAChrome.php:43 | December's window, where `month + 1` is 13, ends at 23:59:59 on December 31 |
| Seqs.FilterCountsIndices | actions/IAChrome.php:68-73 | the problem list has exactly one entry per position of the event list that holds a problem event |
| Seqs.FilterAppend | actions/IAChrome.php:68-73 | collecting problems from two concatenated lists gives the problems of the first list followed by those of the second |
| Incidents.Problems | actions/IAChrome.php:68-73 | the problem list holds one entry per problem event of the event list, only problem events, and every one of them |
| Incidents.Latency | actions/IAChrome.php:78 | the latency times 3600 is the resolving event's clock minus the problem's clock, and it is not negative when the problem comes first |
| Incidents.FindEvent | actions/IAChrome.php:76-81 | the scan stops at the first event with the wanted id; no result means no event has that id |
| Incidents.ResolutionTime | actions/IAChrome.php:76-82 | a problem has a sample exactly when some event has its `r_eventid`; the sample is the hours from the problem to the first such event |
| Incidents.ResolutionTimes | actions/IAChrome.php:75-82 | there is at most one sample per problem, exactly one each when every problem is resolved, and none when no problem is; every sample is some problem's latency to its first resolving event |
| Incidents.Mean | actions/IAChrome.php:122 | the average is 0 when there are no samples, and otherwise times the number of samples gives their sum |
| Incidents.MeanAtLeast | actions/IAChrome.php:122 | the average of samples that are all at least a bound is at least that bound |
| Incidents.MeanAtMost | actions/IAChrome.php:122 | the average of samples that are all at most a bound is at most that bound |
| Incidents.Percentage | actions/IAChrome.php:123 | the percentage is 0 when there are no problems, otherwise times the problem count gives 100 times the acknowledged count, and it lies in [0, 100] |
| Incidents.DisplayName | actions/IAChrome.php:93-101 | nobody found gives "System"; a first user whose name or surname is not PHP-empty gives `name surname` with PHP trim characters removed at both ends; otherwise the alias |
| Incidents.HasMessage | actions/IAChrome.php:103-112 | an acknowledgment has a comment exactly when its message is not "0" and contains a character that PHP `trim` keeps |
| Incidents.EnrichAck | actions/IAChrome.php:87-117 | a throwing lookup gives no record; otherwise the record has the problem's clock, the acknowledgment's clock, the display name, and the message or the placeholder |
| Incidents.AckRecord | actions/IAChrome.php:87-117 | one acknowledgment contributes no record when the lookup throws and exactly its enriched record otherwise |
| Incidents.EnrichAcks | actions/IAChrome.php:86-118 | a problem's acknowledgments give at most one record each, exactly one each when no lookup throws, and none when every lookup throws; every record carries the problem's clock |
| Incidents.AckRecords | actions/IAChrome.php:84-119 | there are no more records than acknowledgments on problems, and every record's event time is one problem's clock |
| Incidents.AnalyzeMonthEvents | actions/IAChrome.php:61-132 | the problem count is the number of problem events, and the acknowledged count is the number of problems with acknowledgments and is at most the problem count; the percentage lies in [0, 100]; a month without problems has all-zero statistics and no records; when no problem has a resolving event the average resolution time is 0; the average resolution time is the mean of the problems' resolution samples, the percentage is the acknowledged count over the problem count, and the records are those the acknowledged problems give |
| IncidentProperties.TotalProblemsIgnoresOtherEvents | actions/IAChrome.php:68-73 | inserting non-problem events anywhere in the list leaves the problem count unchanged |
| IncidentProperties.LookupOnlyAffectsRecords | actions/IAChrome.php:84-123 | the problem count, average, acknowledged count and percentage do not depend on the user lookup |
| IncidentProperties.ThrowingLookupDropsRecords | actions/IAChrome.php:84-117 | when every lookup throws there are no records, yet every acknowledged problem is still counted |
| IncidentProperties.NonThrowingLookupKeepsAll | actions/IAChrome.php:86-117 | when no lookup throws, every acknowledgment of every problem yields exactly one record |
| IncidentProperties.EnrichAcksAppend | actions/IAChrome.php:86-118 | the records of two concatenated acknowledgment lists are the records of the first list followed by those of the second |
| IncidentProperties.RecordTimesComeFromAcks | actions/IAChrome.php:107-109 | every record's `ack_time` is the clock of one of the problem's acknowledgments |
| IncidentProperties.AckRecordsSingle | actions/IAChrome.php:84-119 | one problem gives its own enriched acknowledgments when it has any and no records otherwise; with the append rule this fixes the records of every problem list |
| IncidentProperties.AckRecordsAppend | actions/IAChrome.php:75-120 | the records of two concatenated problem lists are those of the first followed by those of the second |
| IncidentProperties.AcksFollowEventOrder | actions/IAChrome.php:75-120 | splitting the event list in two splits the records in the same order |
| IncidentProperties.ResolutionTimesAppend | actions/IAChrome.php:75-82 | the samples of two concatenated problem lists are the samples of the first followed by those of the second |
| IncidentProperties.ResolutionTimesSingle | actions/IAChrome.php:76-82 | one problem contributes its own resolution time when it has a resolving event and nothing otherwise |
| IncidentProperties.OneSample | actions/IAChrome.php:76-80 | a problem whose first resolving event is at position `j` contributes exactly its latency to `events[j]` |
| IncidentProperties.OneAndTenHours | actions/IAChrome.php:75-82 | problems resolved after 3600 and 36000 seconds give the samples 1.0 and 10.0, in that order |
| IncidentProperties.SamplesNonNegative | actions/IAChrome.php:78 | when no resolving event precedes its problem, every resolution-time sample is at least 0 |
| IncidentProperties.AverageNonNegative | actions/IAChrome.php:122 | under the same condition the average resolution time is at least 0 |
| IncidentProperties.EmptyMonthStats | actions/IAChrome.php:56-57 | an empty event list, which is also what a failed query returns, gives zero counts, zero average, zero percentage and no records |
| IncidentProperties.ResolvedAfterTwoHours | actions/IAChrome.php:75-123 | one problem resolved 7200 seconds later gives 1 problem, an average of 2.0 hours, no acknowledged problems and 0 % |
| IncidentProperties.TwoAcksOneBlank | actions/IAChrome.php:84-123 | one problem with a commented and a blank acknowledgment, where the lookup finds nobody, gives two "System" records, the second with the placeholder, and 100 % |
| IncidentProperties.ZeroNameFallsBackToAlias | actions/IAChrome.php:96-99 | a name of "0" is PHP-empty, so the alias is shown |
| IncidentProperties.BlankNameGivesEmptyDisplay | actions/IAChrome.php:96-97 | a name of spaces is not PHP-empty, so it is used, and it trims to an empty display name |
| IncidentProperties.NobodyIsSystem | actions/IAChrome.php:93-94 | an empty user list gives "System" |
| IncidentProperties.MessagePolicy | actions/IAChrome.php:103-112 | the record keeps the message exactly when it is not "0" and not only trim characters; otherwise it shows the placeholder and `has_message` is false |
| Text.PhpEmpty | actions/IAChrome.php:96-103 | a string is PHP-empty exactly when it is "" or the single character "0" |
| Text.PhpTrim | actions/IAChrome.php:97-103 | `trim` removes PHP trim characters at both ends and nothing else: the result is a slice with only trim characters around it, neither end is one, and it is empty exactly when every character is one |
| Text.JsTrim | assets/js/class.ia.chrome.js:573 | `trim` removes `\s` characters at both ends and nothing else, in the same sense |
| Text.TrimmedUnique | actions/IAChrome.php:97 | only one string meets the trim contract, so the contracts above determine the trimmed text |
| Text.TrimBy | actions/IAChrome.php:97 | the trimmed text is a slice of the original with only trim characters removed around it, and it neither starts nor ends with one |
| Text.TrimByEmpty | actions/IAChrome.php:103 | trimming gives the empty string exactly when every character is a trim character |
| Text.ContainsEmpty | assets/js/class.ia.chrome.js:548-551 | every chunk includes the empty string that the previous chunk starts as |
| Consolidation.Step | assets/js/class.ia.chrome.js:551-556 | after a chunk, the remembered chunk is that chunk and the buffer ends with it; the buffer is either the chunk alone or the old buffer followed by the chunk |
| Consolidation.Consolidate | assets/js/class.ia.chrome.js:547-556 | with no chunks both strings are empty; otherwise the buffer ends with the last chunk, which is also the remembered chunk |
| Consolidation.LastSnapshot | assets/js/class.ia.chrome.js:551 | there is always a last chunk that contains its predecessor, and no later chunk does |
| Consolidation.BufferIsTextSinceLastSnapshot | assets/js/class.ia.chrome.js:547-556 | the buffer is exactly the concatenation of the chunks from the last snapshot chunk on |
| Consolidation.SnapshotReplaces | assets/js/class.ia.chrome.js:551-552 | a last chunk that contains its predecessor becomes the whole buffer and is the last snapshot |
| Consolidation.DeltaAppends | assets/js/class.ia.chrome.js:551-554 | a last chunk that does not contain its predecessor is appended to the buffer of the chunks before it, and the last snapshot stays where it was |
| Consolidation.DeltaStep | assets/js/class.ia.chrome.js:551-554 | a chunk that does not contain its predecessor is appended to the buffer built from the chunks before it |
| Consolidation.StepAfterEmptyReplaces | assets/js/class.ia.chrome.js:548-552 | a chunk after an empty chunk, and the first chunk, replaces the buffer |
| Consolidation.FirstChunkIsWholeBuffer | assets/js/class.ia.chrome.js:547-552 | after one chunk the buffer is that chunk |
| Consolidation.SnapshotExample | assets/js/class.ia.chrome.js:551-552 | "Hello" then "Hello world" gives "Hello world" |
| Consolidation.DeltaExample | assets/js/class.ia.chrome.js:553-554 | "Hello" then " world" gives "Hello world" |
| Consolidation.SnapshotCanDropEarlierText | assets/js/class.ia.chrome.js:551-556 | "a", "b" gives "ab", but a further "bc" contains "b" and replaces the buffer with "bc": the buffer does not only grow |
| Formatting.StripBold | assets/js/class.ia.chrome.js:559 | the result is the text with some `*` characters deleted, has no `**` left, and keeps a first character that is not `*` |
| Formatting.StripBoldIdempotent | assets/js/class.ia.chrome.js:559 | a text without `**` is unchanged, so stripping twice equals stripping once |
| Formatting.StripBoldAppend | assets/js/class.ia.chrome.js:559 | when the join of two texts does not put a `*` on both sides, removing `**` from the whole equals removing it from each part and concatenating |
| Formatting.StripBoldSingle | assets/js/class.ia.chrome.js:559 | a single character other than `*` is kept |
| Formatting.StripBoldStars | assets/js/class.ia.chrome.js:559 | a run of k stars leaves one star when k is odd and nothing when k is even, so `**` becomes empty |
| Formatting.BoldMarkersRemoved | assets/js/class.ia.chrome.js:559 | `**bold**` becomes `bold` |
| Formatting.NewlinesToBr | assets/js/class.ia.chrome.js:560 | no `\n` is left, and each one grows the text by the three extra characters of `<br>` |
| Formatting.NewlinesToBrAppend | assets/js/class.ia.chrome.js:560 | the replacement distributes over concatenation |
| Formatting.NewlinesToBrSingle | assets/js/class.ia.chrome.js:560 | a single `\n` becomes `<br>` and any other single character is kept, which with the previous row fixes the result of every text |
| Formatting.NewlinesToBrIdentity | assets/js/class.ia.chrome.js:560 | a text without `\n` is unchanged |
| Formatting.CollapseWhitespace | assets/js/class.ia.chrome.js:561 | the only whitespace left is the plain space, no two whitespace characters are adjacent, the visible characters are kept in order, there is one space per maximal whitespace run of the input, and leading whitespace becomes one space |
| Formatting.CollapseAppend | assets/js/class.ia.chrome.js:561 | collapsing distributes over a concatenation that does not split a whitespace run |
| Formatting.CollapseSingle | assets/js/class.ia.chrome.js:561 | a single visible character is kept and a single whitespace character becomes a space |
| Formatting.CollapseRun | assets/js/class.ia.chrome.js:561 | a whole run of whitespace becomes one space; with the two previous rows this fixes the result of every text |
| Formatting.CollapseIdempotent | assets/js/class.ia.chrome.js:561 | an already collapsed text is unchanged |
| Formatting.CollapsedHasNoLineTerminator | assets/js/class.ia.chrome.js:561-563 | after collapsing, no line terminator is left for the multiline `^` |
| Formatting.OrdinalLengthDetects | assets/js/class.ia.chrome.js:563 | `^\d+\.\s*` matches at the start exactly when the text starts with digits and a full stop |
| Formatting.StripLeadingOrdinal | assets/js/class.ia.chrome.js:563 | the result is a suffix of the text; it is shorter exactly when the text starts with an ordinal; what is removed is one or more digits, one full stop, then only whitespace, and no whitespace is left at the front |
| Formatting.StripOrdinalsFrom | assets/js/class.ia.chrome.js:563 | scanning from a position, only digits, full stops and whitespace are removed, and nothing changes when no later line starts with an ordinal |
| Formatting.StripOrdinals | assets/js/class.ia.chrome.js:563 | the global multiline replacement removes only digits, full stops and whitespace, and leaves a text none of whose lines starts with an ordinal unchanged; on a single line (a line terminator at most at the very end) it removes exactly the leading ordinal |
| Formatting.OrdinalsOnlyAtStart | assets/js/class.ia.chrome.js:561-563 | on a single line the global multiline replacement removes exactly the leading ordinal |
| Formatting.ReplaceBullets | assets/js/class.ia.chrome.js:567 | every `•` becomes `◆` and every other character is kept in place |
| Formatting.PlainSteps | assets/js/class.ia.chrome.js:558-563 | after the first four replacements there is no `**` and no run of whitespace |
| Formatting.Format | assets/js/class.ia.chrome.js:558-573 | the displayed text neither starts nor ends with whitespace, whatever the HTML wrappers do |
| Formatting.PlainChainInvariants | assets/js/class.ia.chrome.js:558-573 | with wrappers that add no markup, the displayed text has no `**` and no `•`, and every whitespace character in it is a single space between other characters |

## Left out

- The Zabbix API calls `API::Event()->get` and `API::User()->get` are not modelled. The event list is an input and the user query is the `lookup` parameter. The query's sort order and the exception caught in `getMonthEvents` are left out, except that an empty list covers a failed query.
- `time()` and `date()` are not modelled: the current month is the parameter `now`.
- Calendar.MkTime: gives a civil date and time, not epoch seconds in the server's time zone. It does not normalise out-of-range hours, minutes or seconds, because every call passes in-range constants. It also leaves out PHP `mktime`'s two-digit year mapping, where years 0-69 mean 2000-2069 and 70-100 mean 1970-2000. The year always comes from `date('Y')`, which has four digits.
- Incidents.AnalyzeMonthEvents: the average and the percentage are not rounded to two decimals with PHP `round`, because the model uses exact reals rather than floating point.
- Formatting.StripOrdinalsFrom: for any start position and any text, the contract fixes only which characters may be removed (digits, full stops and whitespace) and that nothing changes when no line from that position on starts with an ordinal. It does not state which ordinals are removed. The exact result is proved only through `Formatting.StripOrdinals` and `Formatting.OrdinalsOnlyAtStart`, for single-line text scanned from position 0.
- Formatting.StripOrdinals: on text with a line terminator before its last character, the contract states only that digits, full stops and whitespace are the only characters removed and that text in which no line starts with an ordinal is unchanged. It does not state which ordinal is removed on each later line. A single line is covered exactly. In the chain the replacement runs after whitespace is collapsed, so its text has no line terminators and the exact single-line case is the one that applies.
- Incidents.FindEvent: PHP's loose `==` at line 77, between the numeric id strings the API returns, is modelled as integer equality.
- Incidents.Latency: PHP's float division is modelled as exact real division.
- Everything in `doAction` apart from the two windows is left out: trigger and item lookup, permission handling, the response envelope and the JSON output.
- Formatting.Format: the three replacements that wrap text in HTML are parameters, and nothing is proved about their result. These are the section headers (lines 565-566), numbered items (569) and `$ ` commands (571-572).
- Strings are sequences of Unicode scalar values. JavaScript works on UTF-16 code units and PHP on bytes. On well-formed text the behaviour agrees, because every character class the model uses is ASCII or in the Basic Multilingual Plane, and none of the replacements splits a character.
- The rest of the JavaScript file is not modelled: prompt construction, the browser AI session and its asynchronous stream, and writing the result into the page.
