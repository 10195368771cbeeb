# Maryland accident analysis — a Dafny model

A model of the data-shaping core of `src/visualization/accident_visualizations.py`,
the script that loads an export of Maryland Transportation Authority accident
records and draws charts of them. The model covers what the charts and the key
statistics are computed from:

- `process_datetime`: the date column parsed with `%m/%d/%Y` (invalid or
  out-of-range strings become NaT, never an error), the weekday name derived
  from the date, the leftmost `\d+:\d+:\d+ [AP]M` substring of the time column
  read with `%I:%M:%S %p`, and its 24-hour hour;
- the severity mapping of `plot_accident_severity`: an exact, case-sensitive
  table of seven accident-type aliases onto three severities;
- the coordinate pipeline of `plot_accident_heatmap`: the regex
  `\(([^,]+),\s*([^)]+)\)`, the independent numeric coercion of each side,
  `dropna` on both, and the "more than ten valid rows" gate;
- the counting of `plot_accident_types`, `plot_accidents_by_day` and
  `analyze_accidents`: `value_counts`, the `> 10` filter, `reindex` onto
  Monday–Sunday, and `idxmax`.

Modules, one file each: `Wrappers` (Option), `Text` (digits, blanks, split and
join), `Strptime` (the field patterns of Python's strptime that pandas uses),
`Calendar` (dates, weekdays, `ParseDate`), `Clock` (time extraction and the
12-to-24-hour conversion), `Classification` (severity), `Geo` (coordinates and
the heatmap gate), `Aggregation` (frequency tables) and `Analysis` (rows,
normalisation and the report).

A cell is an `Option<string>`; `None` is a NaN cell. A derived value that
pandas holds as NaT or NaN is `None` too. `pd.to_numeric` is the parameter
`numeric: string -> bool`, the strings it accepts as numbers.

Four behaviours of the code are easy to misread, and the model keeps them as
the code has them:

- `%m` and `%d` accept a single digit (and `%d` a blank followed by one
  digit), so `4/12/2019` parses;
- an accident type outside the seven aliases maps to NaN, which
  `value_counts` leaves out; there is no "Unclassified" severity;
- `reindex` puts NaN, not zero, where a day never occurs;
- which of several tied keys `idxmax` returns follows the order of
  `value_counts`, and the model promises only a key of largest count.

## Model

| member | source | states |
|---|---|---|
| Strptime.OneToTwelve | src/visualization/accident_visualizations.py:22 | `%m` and `%I` read a month or a 12-hour clock hour, always 1–12 (which spellings: OneToTwelveSpellings) |
| Strptime.DayOfMonth | src/visualization/accident_visualizations.py:22 | `%d` reads a day of the month, always 1–31 (which spellings: DayOfMonthSpellings) |
| Strptime.Minute | src/visualization/accident_visualizations.py:34 | `%M` reads a minute, always 0–59 (which spellings: MinuteSpellings) |
| Strptime.Second | src/visualization/accident_visualizations.py:34 | `%S` reads a second, at most 61, so the leap seconds 60 and 61 are admitted (which spellings: SecondSpellings) |
| Strptime.Year | src/visualization/accident_visualizations.py:22 | `%Y` reads a year below 10000 (which spellings: YearSpellings) |
| Strptime.OneToTwelveSpellings | src/visualization/accident_visualizations.py:22 | `%m` (and `%I`) accept a field exactly when it is 1–12 written with one digit or two, zero-padded |
| Strptime.DayOfMonthSpellings | src/visualization/accident_visualizations.py:22 | `%d` accepts exactly 1–31 written with one digit, two digits, or a blank and one digit |
| Strptime.MinuteSpellings | src/visualization/accident_visualizations.py:34 | `%M` accepts exactly 0–59 written with one digit or two |
| Strptime.SecondSpellings | src/visualization/accident_visualizations.py:34 | `%S` accepts exactly 0–61 written with one digit or two |
| Strptime.YearSpellings | src/visualization/accident_visualizations.py:22 | `%Y` accepts exactly four digits, and reads them as the year they write |
| Calendar.DaysInMonth | src/visualization/accident_visualizations.py:22 | a month has 28 to 31 days, 29 exactly for February of a leap year |
| Calendar.DaysBeforeYearIsCounted | src/visualization/accident_visualizations.py:25 | the closed-form count of days before a year equals the year-by-year sum of year lengths |
| Calendar.DayNumberOfNextDay | src/visualization/accident_visualizations.py:25 | the day after a date has the next day number, across month and year ends |
| Calendar.WeekdayOfNextDay | src/visualization/accident_visualizations.py:25 | the weekday of the next day is the next weekday, so weekdays cycle through the calendar |
| Calendar.WeekdayOf | src/visualization/accident_visualizations.py:25 | `dt.day_name()` of a date: its position in the week is its distance in days from Friday 12 April 2019, counted from Friday, modulo seven |
| Calendar.WeekdayIndex | src/visualization/accident_visualizations.py:98 | each weekday has a position 0–6 in the Monday-to-Sunday order |
| Calendar.WeekdayNamesAreDayOrder | src/visualization/accident_visualizations.py:98 | the names of the weekdays in Monday-first order are the chart's day order, and no two weekdays share a name |
| Calendar.NextDay | src/visualization/accident_visualizations.py:25 | the day after a calendar date is a calendar date and later than it |
| Calendar.ParseDate | src/visualization/accident_visualizations.py:22 | a parsed date is a real calendar date inside pandas' Timestamp range |
| Calendar.ParseDateExact | src/visualization/accident_visualizations.py:22 | a string parses to a date exactly when the date is in Timestamp range and the string spells it month/day/year in an accepted spelling |
| Calendar.ParseExportedDate | src/visualization/accident_visualizations.py:22 | "4/12/2019" parses to 12 April 2019 |
| Clock.MatchTimeAt | src/visualization/accident_visualizations.py:31 | a match found at a position is digits, colon, digits, colon, digits, blank, A or P, M |
| Clock.MatchTimeAtComplete | src/visualization/accident_visualizations.py:31 | every full match of the time pattern at a position is the one found there |
| Clock.FindTimeFrom | src/visualization/accident_visualizations.py:31 | the search returns a match at the first position where one starts, and none before it |
| Clock.FoundIsMatch | src/visualization/accident_visualizations.py:31 | the substring the search returns matches the time pattern in full |
| Clock.NothingBeforeFound | src/visualization/accident_visualizations.py:31 | no match of the time pattern starts before the one returned |
| Clock.FoundEndIsUnique | src/visualization/accident_visualizations.py:31 | no match starting where the returned one starts ends anywhere else |
| Clock.NothingFoundMeansNoMatch | src/visualization/accident_visualizations.py:31 | when the search finds nothing, no substring of the cell matches the time pattern |
| Clock.FindTimeLeftmost | src/visualization/accident_visualizations.py:31 | the extracted substring is the leftmost match, no other match ends elsewhere at its start, and nothing is found only when no substring matches |
| Clock.ExtractTime | src/visualization/accident_visualizations.py:31 | what is extracted matches the time pattern in full |
| Clock.To24Hour | src/visualization/accident_visualizations.py:34-37 | a 12-hour clock hour becomes an hour 0–23 with the same value modulo 12, 12 or more exactly for PM |
| Clock.ClockConversionsInverse | src/visualization/accident_visualizations.py:34-37 | reading a 12-hour clock face and showing an hour on it are mutually inverse |
| Clock.ClockHour | src/visualization/accident_visualizations.py:34-37 | an hour results exactly when hour, minute and second fields are each accepted; it is 0–23, and for seconds below 60 agrees with the clock hour modulo 12 and with the AM/PM marker |
| Clock.HourOf | src/visualization/accident_visualizations.py:31-37 | the hour column is 0–23 wherever it is set, and set only where a time was extracted |
| Clock.FieldsOfTimeText | src/visualization/accident_visualizations.py:31-34 | a time assembled from digit fields and a marker matches the pattern and splits back into those fields |
| Clock.ClockFields | src/visualization/accident_visualizations.py:34 | the fields `%I:%M:%S %p` reads from a matched time are three nonempty digit runs and a marker that, joined by colons and " AM"/" PM", give back the matched text |
| Clock.ClockFieldsAt | src/visualization/accident_visualizations.py:31-34 | a string shaped as a time at given colon positions is a full match whose clock fields are the slices between those colons |
| Clock.ExtractWholeTime | src/visualization/accident_visualizations.py:31 | a cell that is a time in full is extracted whole |
| Clock.ExtractAfterPrefix | src/visualization/accident_visualizations.py:28-31 | behind a prefix without colons that does not end in a digit, the time is what is extracted |
| Clock.HourAfterPrefix | src/visualization/accident_visualizations.py:28-37 | such a prefix does not change the hour |
| Clock.HourOfRenderedTime | src/visualization/accident_visualizations.py:31-37 | every time of day written as the export writes it is read back as its own hour |
| Clock.HourOfDatePrefixedTime | src/visualization/accident_visualizations.py:28-37 | "4/12/2019 7:45:00 PM" yields "7:45:00 PM" and hour 19 |
| Classification.Classify | src/visualization/accident_visualizations.py:140 | `.map(severity_mapping)` of one cell: a severity exactly when the cell holds one of the mapping's keys, and then the severity that key maps to; NaN otherwise |
| Classification.ClassifiedLabels | src/visualization/accident_visualizations.py:129-140 | exactly seven labels have a severity, and each severity has exactly the aliases the table gives it |
| Classification.CrashLabelClassifies | src/visualization/accident_visualizations.py:129-140 | every severity is reached, from its long-form crash label |
| Classification.SeverityNamesDistinct | src/visualization/accident_visualizations.py:129-137 | the three severity labels of the mapping are pairwise distinct |
| Classification.LookupIsCaseSensitive | src/visualization/accident_visualizations.py:129-140 | "pd" and "PD" are aliases but "Pd", "pD", "fatal crash" and "f" are not |
| Geo.MatchPairAt | src/visualization/accident_visualizations.py:160 | a pair found at a position has an opening parenthesis there, a comma-free first group and a nonempty second group that ends before the first closing parenthesis |
| Geo.MatchPairAtComplete | src/visualization/accident_visualizations.py:160 | every match of the coordinate pattern at a position has the comma and closing parenthesis of the one found there |
| Geo.FindPairFrom | src/visualization/accident_visualizations.py:160 | the search returns the match at the first position where one starts |
| Geo.ExtractPair | src/visualization/accident_visualizations.py:160 | a captured pair comes from inside parentheses: latitude nonempty without commas, longitude nonempty without closing parentheses |
| Geo.ExtractPairLeftmost | src/visualization/accident_visualizations.py:160 | the pair is taken from the leftmost match, and none is found only when the pattern matches nowhere |
| Geo.ExtractPairRoundTrip | src/visualization/accident_visualizations.py:160 | a cell written "(" lat, a comma followed by blanks, "lon)", then anything, gives back lat and lon, the blanks skipped |
| Geo.ExtractCommaBlankPair | src/visualization/accident_visualizations.py:160 | a cell written "(lat, lon)" gives back lat and lon |
| Geo.Present | src/visualization/accident_visualizations.py:165 | dropping the NaN entries of a column keeps each set value exactly as many times as the column holds it, so its length is the column length less the NaN count |
| Geo.PresentKeepsSetValues | src/visualization/accident_visualizations.py:165 | the kept values are exactly the set values of the column, and nothing is dropped exactly when no entry is NaN |
| Geo.SurvivalMask | src/visualization/accident_visualizations.py:165 | the `dropna` mask is true at exactly the rows whose latitude and longitude are both set |
| Geo.CountTrue | src/visualization/accident_visualizations.py:166 | the count of a mask is at most its length, zero exactly when no entry is true, and the full length exactly when every entry is |
| Geo.ValidRowCount | src/visualization/accident_visualizations.py:166 | `len(valid_coords)` is at most the number of rows, zero exactly when no row keeps both coordinates, and all rows exactly when every row does |
| Geo.PresentCountsValidRows | src/visualization/accident_visualizations.py:161-165 | the pairs left after dropping the NaN rows number exactly the rows whose latitude and longitude both survive coercion |
| Geo.PresentLengthIsCount | src/visualization/accident_visualizations.py:165-166 | dropping the NaN entries keeps as many values as a mask that is true exactly at the set entries counts |
| Geo.ValidCoordinatesNeedBothSides | src/visualization/accident_visualizations.py:161-165 | a row keeps its coordinates exactly when the pattern matches and both sides are numbers, and then holds the captured pair |
| Geo.OneNumericSideIsDropped | src/visualization/accident_visualizations.py:161-165 | a row with a numeric latitude and a non-numeric longitude keeps its latitude and is still dropped |
| Geo.Latitude | src/visualization/accident_visualizations.py:161 | `df['Latitude']` of a row: set exactly when the pattern matched and `to_numeric` accepts group 1, and then it is group 1 |
| Geo.Longitude | src/visualization/accident_visualizations.py:162 | `df['Longitude']` of a row: set exactly when the pattern matched and `to_numeric` accepts group 2, and then it is group 2 |
| Geo.ValidPair | src/visualization/accident_visualizations.py:161-165 | a valid pair has two numeric sides |
| Geo.ValidPairIsDropnaSurvivor | src/visualization/accident_visualizations.py:161-165 | the pair test says the same as the two coerced columns surviving dropna |
| Geo.ValidCoordinates | src/visualization/accident_visualizations.py:161-165 | `valid_coords` holds each captured pair exactly as many times as rows with two numeric sides captured it, so its length is the number of such rows; its pairs are numeric, every valid row's pair is among them, and all rows survive exactly when all are valid |
| Geo.ExtractFrame | src/visualization/accident_visualizations.py:160 | `str.extract` gives a frame of two columns with one row per cell: the two captured texts where the pattern matches, NaN in both columns where it does not |
| Geo.AssignColumn | src/visualization/accident_visualizations.py:160 | setting a single column from a frame succeeds only for a frame of width one, and then takes its one column row by row |
| Geo.PlanHeatmap | src/visualization/accident_visualizations.py:157-186 | without the column the except clause reports failure; with it the heatmap is drawn exactly when more than ten rows keep both coordinates, over the pairs of exactly those rows, each as many times as rows hold it |
| Geo.HeatmapAsWritten | src/visualization/accident_visualizations.py:160 | the frame `str.extract` returns has one column per group of the two-group pattern, assigning it to one column raises, and so every call ends in the except clause |
| Geo.RenderedPairIsValid | src/visualization/accident_visualizations.py:160-165 | a written pair of two numbers is a valid row |
| Geo.AllValidRowsDrawHeatmap | src/visualization/accident_visualizations.py:165-166 | eleven or more rows, all valid, draw the heatmap |
| Geo.AsWrittenNeverDrawsHeatmap | src/visualization/accident_visualizations.py:160-186 | eleven valid rows draw the heatmap in the intended code and report failure in the code as written |
| Aggregation.FirstSeen | src/visualization/accident_visualizations.py:46 | the keys of a count table are the distinct non-null values, each once |
| Aggregation.ValueCounts | src/visualization/accident_visualizations.py:46 | the counted keys are exactly the non-null values, each with its number of occurrences |
| Aggregation.CountsStep | src/visualization/accident_visualizations.py:46 | appending one cell, set or NaN, raises the total of the counts plus the number of NaN cells by exactly one |
| Aggregation.CountsAddUpToRows | src/visualization/accident_visualizations.py:46 | the counts add up to the number of non-null cells, and with the null cells to the number of rows |
| Aggregation.Significant | src/visualization/accident_visualizations.py:49 | exactly the keys occurring more than ten times are kept, with their counts |
| Aggregation.Reindex | src/visualization/accident_visualizations.py:101 | the reindexed table has one entry per key of the order, NaN exactly for a key never seen, else its count |
| Aggregation.PeakAmong | src/visualization/accident_visualizations.py:212 | the chosen key is one of the keys and no key has a larger count |
| Aggregation.Peak | src/visualization/accident_visualizations.py:212-213 | the peak is an occurring value that no value outnumbers; there is none (idxmax raises) exactly when every cell is null |
| Analysis.DateOf | src/visualization/accident_visualizations.py:22 | a date cell yields a date only if it spells that date and the date is in Timestamp range |
| Analysis.Normalize | src/visualization/accident_visualizations.py:20-38 | the date is the parsed date cell, the weekday is set exactly when the date is and is its weekday, the hour is the one read from the time cell and is 0–23, the accident type is kept, and the severity is the alias lookup, set exactly for the seven aliases |
| Analysis.NormalizeAll | src/visualization/accident_visualizations.py:197 | normalisation keeps every row, in order |
| Analysis.DayTable | src/visualization/accident_visualizations.py:98-101 | the weekday table has seven entries, Monday first; an entry is set exactly when some row falls on that day, and then holds that day's count |
| Analysis.WeekdayCounts | src/visualization/accident_visualizations.py:98-101 | a weekday has an entry exactly when some row's date cell parses to a date on that day, and the entry is the number of rows on that day |
| Analysis.WeekTotalCountsEveryDay | src/visualization/accident_visualizations.py:101 | every weekday cell is counted under exactly one day or is NaN |
| Analysis.DayTableCountsDatedRows | src/visualization/accident_visualizations.py:98-101 | the weekday table, NaN as zero, adds up to the number of rows with a parsed date |
| Analysis.UnclassifiedAreNull | src/visualization/accident_visualizations.py:140 | the rows with NaN severity and the rows whose type is an alias together number all the rows |
| Analysis.SeverityCountsCoverClassifiedRows | src/visualization/accident_visualizations.py:140-141 | the severity counts add up to the number of rows whose accident type is in the alias table |
| Analysis.TypeCounts | src/visualization/accident_visualizations.py:46 | the type counts hold exactly the accident types that occur |
| Analysis.SignificantTypes | src/visualization/accident_visualizations.py:46-49 | the type chart's slices are exactly the counted types with more than ten rows, with their counts |
| Analysis.SeverityCounts | src/visualization/accident_visualizations.py:140-141 | the severity counts hold exactly the severities some row is classified as, each with the number of rows classified so |
| Analysis.HourCounts | src/visualization/accident_visualizations.py:70 | the hour chart counts only hours 0–23, exactly the hours some row has, each with the number of rows at that hour |
| Analysis.PeakHour | src/visualization/accident_visualizations.py:212 | the peak hour is a counted hour no other outnumbers; none exactly when no hour was parsed |
| Analysis.PeakDay | src/visualization/accident_visualizations.py:213 | the peak day has the tallest bar of the weekday table; none exactly when the table is all NaN |
| Analysis.Analyze | src/visualization/accident_visualizations.py:189-213 | the total is the row count; the type table holds exactly the occurring types with their counts, and its slices those above ten; the peaks are largest entries of the hour and weekday tables, none exactly when those are empty; the heatmap outcome is the intended one of PlanHeatmap, drawn exactly when the column exists and more than ten rows keep both coordinates, which the code as written never reaches (see Findings) |
| Analysis.AnalyzeTimeTables | src/visualization/accident_visualizations.py:197-202 | in the report, the hour table holds exactly the hours 0–23 read from the time cells, each with its number of rows, and the weekday table has an entry exactly for the weekdays of the parsed date cells, with their counts |
| Analysis.AnalyzeSeverityTable | src/visualization/accident_visualizations.py:197-203 | in the report, the severity table holds exactly the severities the rows' accident types map to, each with its number of rows |
| Analysis.NormalizeExportedRow | src/visualization/accident_visualizations.py:20-38 | the row "4/12/2019", "4/12/2019 7:45:00 PM", "PD" is Friday 12 April 2019, hour 19, property damage only |

## Left out

- Plotting: every matplotlib and seaborn call, the figure styles, colours, annotations and ticks. What they draw comes from the modelled tables, but two of the calls can raise, as the next line says.
- Analysis.Analyze: the report is produced in full even where the script stops with an uncaught exception. When no accident type occurs more than ten times, line 52 builds a one-element `explode` list for an empty pie and `plt.pie` at line 55 raises, so nothing after the type chart runs. When no hour parsed, `idxmax` at line 212 raises and line 213 does not run. When some hour parsed but no date did, `idxmax` at line 213 raises. The model records these cases as an empty `significantTypes`, a `None` peak hour and a `None` peak day rather than as a stop. Its heatmap outcome follows the intended line 160 (Geo.PlanHeatmap); the code as written ends in the except clause every time (Geo.HeatmapAsWritten).
- Input and output: reading the CSV, creating the output directory, `savefig`, and all printing. The model starts from a loaded table.
- Floating point: `pd.to_numeric` is the abstract parameter `numeric`, standing for the strings it reads as finite numbers, and coordinates stay the captured substrings.
- Geo.PlanHeatmap: a side such as "inf" that `to_numeric` reads as a non-finite number survives `dropna` and counts toward the gate, and `plt.hist2d` then raises inside the try so the except clause runs; the model, with `numeric` read as finite numbers only, does not state this case.
- Missing columns: a table without the date, time or accident-type column makes the script raise a KeyError; the model has these columns always. Only the georeferenced column may be absent.
- Non-string columns: a time or georeferenced column that pandas reads as all-NaN floats makes the `.str` accessor raise; the model treats such cells as NaN strings. For the georeferenced column this changes the heatmap outcome from the except clause to "not enough coordinates"; no heatmap is drawn either way.
- Unicode: `\d` is modelled as the ASCII digits and `\s` as the Latin-1 blanks; other Unicode digits and spaces are not modelled.
- Clock.ClockHour: a leap second (60 or 61) is carried into the minute and from minute 59 into the next hour; pandas' handling of these seconds was not confirmed, so the contract promises the AM/PM agreement only for seconds below 60.
- Aggregation.Peak: which of several tied keys `idxmax` returns follows pandas' ordering of `value_counts`; the contract states only that no key has a larger count.
- Geo.ExtractPairRoundTrip: stated for a cell that starts with the opening parenthesis; text before it is covered only by the leftmost-match lemma.
- The hour axis of the hour chart (ticks 0–23) and the percentages of the pie charts are rendering.

## Findings

| source | as written | input that shows it | evidently intended | confidence | as-written member | corrected member |
|---|---|---|---|---|---|---|
| src/visualization/accident_visualizations.py:160 | the two-column frame that `str.extract` returns is assigned to the single column 'Coordinates', which pandas refuses, so the except clause at line 185 always runs and no heatmap is ever drawn | eleven rows whose georeferenced cell is "(39.3, -76.6)" | extract both groups, coerce each, and draw the heatmap when more than ten rows have valid coordinates | high; not executed | Geo.AsWrittenNeverDrawsHeatmap | Geo.PlanHeatmap |
