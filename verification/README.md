# Vacancy statistics: a Dafny model of the data pipeline

This project models the sequential, deterministic core of a Python tool that
reads exported job vacancies (CSV) and does the following:

- cleans their fields;
- converts salary ranges to roubles;
- computes per-year and per-city statistics;
- picks the currencies worth fetching rates for;
- splits the export into one file per year;
- prints a filterable, sortable vacancy table;
- shapes the data for the report's sheets and charts.

All of it is written as pure functions over immutable data, with the
properties of the code proved as contracts and lemmas. There is one module per
source file, plus shared modules:

| module | models |
|---|---|
| `CsvReader` | `csv_reader.py`: the row filter, `clear_str`, `csv_filer` (also duplicated as methods of `table.py`'s `DataSet`) |
| `Salaries` | `Salary.convert_to_rub` and its rate table (`statistics.py`, same code in `table.py`) |
| `Statistics` | `statistics.py`: `create_vacancy`, `get_salary_by_age`, `count_vacancies_by_cities`, `get_statistics_by_cities`, `get_statistics_by_year`, `join_statistics_by_years`, the year list of `run_multiprocessing` |
| `Ranking` | `sort_cities_by_value` / `sort_cities`: a stable descending sort, then the first `n` items |
| `Currency` | `currency.py`: currency frequencies and selection, the date range, the rate table of `Uploader` |
| `Dates` | `date_converter.py`: the proleptic Gregorian calendar of `datetime`, `timedelta` arithmetic, `convert_to_date` and the same offset rule in `table.py`'s `sort_by_date` |
| `YearParts` | `csv_parts_creator.py`: grouping rows by year and the content of each year file |
| `TableFormat` | `table.py`: `create_vacancy`, the namings, sort keys, `modify_number`, `formatter`, and the cell truncation and numbering of `create_table` |
| `TableFilters` | `table.py`: the `filter_by_*` functions, `filter_data`, `check_filter_param`, `check_input_values`, the sort title lookup |
| `Report` | `report.py`: `format_cities_labels`, the rows of `add_years_statistics` / `add_cities_statistics`, the pie data |
| `Results`, `Seqs`, `Text`, `Numbers`, `OrderedMaps` | Python's exceptions as `Result` values, `filter`, `str` operations, `int`/`float`/`str` conversions, and insertion-ordered dicts |

Modelling conventions:

- **Dicts.** A Python dict is a sequence of `(key, value)` pairs with distinct keys (`OrderedMaps.Dict`). Assigning a new key appends it, and assigning an existing key keeps its place. Several results depend on this insertion order.
- **Exceptions.** A raised exception is a `Fail` value naming it: `IndexError`, `KeyError`, `ValueError`, `TypeError`, `AttributeError` or `OverflowError`. When several can occur, the first one in the source's evaluation order is the one reported.
- **Cleaned fields.** A field after cleaning is either a text or a list of lines (`Field = Text | Lines`). A vacancy attribute can hold either.
- **Money and conversions.** Money and rates are exact `real`s. Python's `//` is `.Floor`. `float(s)` and `int(s)` are modelled on decimal text.
- **Timestamps.** A timestamp is parsed only in the shape the exports use, `YYYY-MM-DDTHH:MM:SS±HHMM`.

## Behaviour of the code worth knowing

- **Salary bounds.** `convert_to_rub` calls `float` on both bounds, so an empty bound is a ValueError, not filled in from the other bound. The rate is taken from the static ten-code table (statistics.py:110-122). `Salaries.ConvertToRub` models this.
- **Empty input to `csv_reader`.** It reads `data[0]`, so input that parses to no rows at all raises IndexError (csv_reader.py:16). The `([], [])` result of the reader test needs input that parses to a single empty row. `CsvReader.ReadCsv` has both cases.

## Model

| member | source | states |
|---|---|---|
| CsvReader.ReadCsv | csv_reader.py:16-19 | No parsed rows is an IndexError. Otherwise the header is the first row, every kept row has no empty cell and the header's length, and every such later row is kept. |
| CsvReader.ReadCsvExactly | csv_reader.py:18 | A well-formed row is kept exactly as often as it occurs after the header, and any other row never. Appending a row to the file appends it to the result exactly when it is well-formed, so input order is kept. |
| CsvReader.ReadCsvSmallFiles | tests/csv_reader_tests.py:13-19 | A file with one well-formed data row gives that row with the header. Input that parses to one empty row gives `([], [])`. |
| CsvReader.StripTags | csv_reader.py:29 | The tag substitution never lengthens the text and only keeps characters of the input. |
| CsvReader.StripTagsTagFree | csv_reader.py:29 | After the substitution no `<` is followed by a `>`, so the pattern `<[^>]*>` has nothing left to match. |
| CsvReader.StripTagsOfTagFree | csv_reader.py:29 | Text in which the pattern finds no tag passes through unchanged. |
| CsvReader.StripTagsPlain | csv_reader.py:29 | Text before the first `<` is kept as it is. |
| CsvReader.StripTagsKeep | csv_reader.py:29 | A first character other than `<` is kept. |
| CsvReader.StripTagsTag | csv_reader.py:29 | A complete tag `<…>` at the front is deleted, up to the first `>`. |
| CsvReader.StripTagsWrapped | csv_reader.py:29 | A `<p>…</p>` pair around text without `<` is removed and leaves that text. |
| CsvReader.CollapseIdempotent | csv_reader.py:29 | `' '.join(s.split())` applied twice is applied once. |
| CsvReader.CollapseKeepsContent | csv_reader.py:29 | Collapsing whitespace keeps every non-whitespace character, in order. |
| CsvReader.ClearStrShape | csv_reader.py:29 | The cleaned text has no tag left, no leading or trailing whitespace, and no whitespace other than single spaces between words. |
| CsvReader.ClearStrIdempotent | csv_reader.py:29 | Cleaning a cleaned text changes nothing. |
| CsvReader.ClearStrOfWord | csv_reader.py:29 | A word without whitespace or tags is left as it is. |
| CsvReader.ClearStrWrappedExample | tests/csv_reader_tests.py:6-7 | `'<p>text</p>'` cleans to `'text'`. |
| CsvReader.ClearStrEmptyExample | tests/csv_reader_tests.py:8-9 | `''` cleans to `''`. |
| CsvReader.ClearStrExampleText | tests/csv_reader_tests.py:10-11 | `'text'` cleans to `'text'`. |
| CsvReader.CleanField | csv_reader.py:44-48 | A field becomes a list of lines exactly when it contains `'\n'`. Any other field becomes the text `clear_str(field)`. |
| CsvReader.CleanFieldText | csv_reader.py:47-48 | A field without `'\n'` is kept as one text that has no tag, no stray whitespace, and reads back unchanged when cleaned again. |
| CsvReader.CleanFieldLines | csv_reader.py:45-46 | A multi-line field has one entry per newline plus one, and each entry is the cleaned piece between the newlines. |
| CsvReader.Zip | csv_reader.py:49 | `zip` pairs titles and cells by position and stops at the shorter list. |
| CsvReader.RowDictLookup | csv_reader.py:49 | With distinct titles, each title that has a cell maps to that cell, cleaned. Titles beyond the end of the row are absent from the dict. |
| Salaries.Rate | statistics.py:97-108 | The rate table has a positive rate for each of its ten codes and nothing else. |
| Salaries.RateOf | statistics.py:122 | The lookup succeeds exactly for a text code in the table. Another text code is a KeyError. |
| Salaries.MeanFloor | statistics.py:121 | `(to + from) // 2` is the greatest integer not above the mean. |
| Salaries.ConvertToRub | statistics.py:110-122 | The conversion succeeds exactly when both bounds parse and the code is in the table. An unparsable upper bound is reported first, as `to` is converted first. |
| Salaries.ConvertToRubMeaning | statistics.py:121-122 | Dividing the result by the rate gives a whole number within one below the mean of the bounds. For RUR the result is the floored mean itself. |
| Salaries.ConvertToRubDollarExample | statistics.py:116-117 | 10 to 20 USD gives 909.9. |
| Salaries.ConvertToRubRoubleExample | statistics.py:118-119 | 10.2 to 40.2 RUR gives 25.0. |
| Salaries.DoctestInputs | statistics.py:116-119 | The doctest inputs 10, 20, 10.2 and 40.2 parse to those values. |
| Statistics.YearOfTimestamp | statistics.py:40 | A timestamp starting with four digits has those digits as its year. |
| Statistics.CreateVacancy | statistics.py:28-40 | A missing `salary_from` is a KeyError. A vacancy that is built carries its row's name and area, the year of its `published_at`, and its salary converted to roubles. |
| Statistics.CreateVacancyFromRow | statistics.py:39 | Through `csv_filer`, the name and area are the cleaned cells under the `name` and `area_name` titles. |
| Statistics.AverageSalary | statistics.py:141-152 | No vacancies give 0. Otherwise the result is the integer that the mean salary lies in `[r, r+1)` of. |
| Statistics.AverageSalaryUnique | statistics.py:149-152 | Any integer meeting those bounds is the average: they determine it. |
| Statistics.AverageSalaryExample | tests/statistics_tests.py:20-21 | Salaries 1000, 1000 and 1200 average to 1066. |
| Statistics.CountByCities | statistics.py:234-249 | Counting succeeds exactly when every area is a single text. A list is unhashable, so its membership test raises TypeError. |
| Statistics.CountByCitiesFacts | statistics.py:242-249 | The keys are the distinct cities in first-occurrence order. Each count is the city's number of vacancies, the counts add up to the number of vacancies, and no vacancies give `{}`. |
| Statistics.CountByCitiesExample | tests/statistics_tests.py:16-17 | Two vacancies in one city and one in another give `{first: 2, second: 1}`. |
| Statistics.RoundHalfEven | statistics.py:264 | `round(y)` is an integer within half of `y`, non-negative for non-negative `y`. |
| Statistics.Round4 | statistics.py:264 | `round(x, 4)` is a multiple of 1/10000 within half a step of `x`. A share in [0, 1] stays in [0, 1]. |
| Statistics.Shares | statistics.py:264-265 | Each qualifying city's share is a multiple of 1/10000 within 0.00005 of its count over the total, in count order. |
| Statistics.SalaryLevels | statistics.py:266-273 | Each qualifying city gets an integer `m` with `m <= mean < m + 1` over the salaries of its own vacancies, or 0 when it has none, in count order. |
| Statistics.QualifyingFacts | statistics.py:259-267 | The qualifying cities are distinct and each holds at least 1% of the vacancies, rounded down. Every city that does is among them. |
| Statistics.StatisticsByCities | statistics.py:251-277 | The statistics exist exactly when every area is a text. Both tables are dicts. |
| Statistics.StatisticsByCitiesFacts | statistics.py:251-277 | Both tables have min(10, #qualifying) entries and are sorted by non-increasing value. Each entry is a qualifying city with its floor-mean salary or its rounded share. |
| Statistics.StatisticsByCitiesEmpty | statistics.py:259-265 | No vacancies give two empty tables, with no division by the zero total. |
| Statistics.SortDescTieExample | statistics.py:216 | Sorting values 10, 30, 10, 20 in descending order keeps the two tied items in input order. |
| Statistics.SortTwelveExample | tests/statistics_tests.py:11-15 | The full descending order of the test's twelve cities, with Ярославль 34, Вологда 30 and Москва 20 first. |
| Statistics.SortCitiesTieExample | statistics.py:218-232 | With a tie at the cut of `sort_cities(…, 3)`, the earlier of the tied items is kept. |
| Statistics.SortCitiesTwelveExample | tests/statistics_tests.py:11-15 | `sort_cities(…, 3)` of the twelve cities is {Ярославль: 34, Вологда: 30, Москва: 20}. |
| Statistics.StatisticsByYear | statistics.py:179-197 | The record carries its year and the number of vacancies. The job count never exceeds it. |
| Statistics.JobSubset | statistics.py:192 | The job subset is exactly the vacancies whose name contains the job (case-sensitive), in order. Its count and floor-mean salary are the job fields. An empty job keeps every text name. |
| Statistics.EmptyJobKeepsAll | statistics.py:192 | The empty job string is in every text name, so the filter keeps everything. |
| Statistics.JoinByYearsFacts | statistics.py:163-172 | Each merged map has exactly the input's keys, in input order, each carrying the matching field. The discarded `sorted(...)` changes nothing. |
| Statistics.ReportYears | statistics.py:201 | Sixteen year names, and the i-th reads back with `int` as `2007 + i`, so they run from `'2007'` to `'2022'` in order. |
| Statistics.ReportYearsDistinct | statistics.py:201 | Those year names are distinct. |
| Statistics.StatisticsByYearsFacts | statistics.py:201-205 | Over distinct years, `{v['year']: v ...}` holds one record per year, in year order. |
| Statistics.YearRunFacts | statistics.py:199-206 | The merged maps are keyed by the years in order. Each holds that year's vacancy count and floor-mean salary, and a job count no larger than the vacancy count. |
| Ranking.SortDescPerm | statistics.py:216 | The sort is a permutation of the items. |
| Ranking.SortDescSorted | statistics.py:216 | The sorted items have non-increasing values. |
| Ranking.SortDescStable | statistics.py:216 | The sort is stable: the items of any one value keep their input order. |
| Ranking.SortDescDistinct | statistics.py:227-232 | Sorting a dict's items keeps their keys distinct. |
| Ranking.Take | statistics.py:228 | `s[0:n]` has min(n, len) items, the first ones of `s`. |
| Ranking.SortCitiesTop | statistics.py:218-232 | For a dict, `sort_cities` is exactly the first min(n, size) items of the stable descending sort: non-increasing and all from the input. |
| Currency.CurrencyFrequency | currency.py:37-43 | The keys are exactly the codes of the column other than `'RUR'`, each mapped to its number of occurrences. A short row is an IndexError. |
| Currency.SelectMostFrequent | currency.py:45-55 | `'RUR'` is never a frequent code. The rows kept are the input rows whose code is frequent or `'RUR'`, in order. |
| Currency.FrequentKey | currency.py:52 | A code is kept exactly when it is a key with a count above 5000. |
| Currency.FrequentKeyOnly | currency.py:52 | A kept code has a count above 5000. |
| Currency.FrequentKeyAll | currency.py:52 | A code counted more than 5000 times is kept. |
| Currency.FrequentCodesIn | currency.py:43-52 | A code is frequent exactly when it is not `'RUR'` and occurs more than 5000 times. |
| Currency.FrequentMeansCount | currency.py:45-55 | The same, stated over the rows' code column. |
| Currency.SelectedRows | currency.py:53-54 | Each kept row is an input row with a frequent or `'RUR'` code, and each input row with such a code is kept. |
| Currency.ConvertDates | currency.py:32 | Conversion succeeds exactly when every row's date converts, giving each row's date in order. Otherwise the error is that of the first row that fails, every earlier row having converted. |
| Currency.Earliest | currency.py:33 | `min` is one of the dates and no later than any of them. |
| Currency.Latest | currency.py:33 | `max` is one of the dates and no earlier than any of them. |
| Currency.GetDateRange | currency.py:26-33 | No rows is a ValueError. Otherwise both ends are converted dates, the first no later than the second, and every date lies between them. |
| Currency.ProcessCurrencies | currency.py:57-72 | It succeeds exactly when both the selection and the date range do, and then returns the selected rows. A short row is an IndexError. A failing date range after a successful selection is the date range's error. |
| Currency.NewTableColumns | currency.py:83-94 | The new table has the columns `'date'` and then the currencies, in order, all empty. |
| Currency.AddRates | currency.py:129-133 | After a successful loop the table has the same columns, and every code of the month is one of them. |
| Currency.MonthRate | currency.py:131 | A value that `float` rejects after the comma is replaced is a ValueError. |
| Currency.MonthRateOfDecimalComma | currency.py:131 | The bank's `'<digits>,<digits>'` reads as `float('<digits>.<digits>')`: the whole part plus the fraction. |
| Currency.MonthRateWithoutComma | currency.py:131 | Text without a comma is read by `float` as it is. |
| Currency.AddRatesOutcome | currency.py:130-131 | The loop succeeds exactly when every code is a column and every value reads as a number. Otherwise the first pair that fails gives the error: KeyError for a code that is not a column, ValueError for an unreadable value. |
| Currency.AppendCellColumn | currency.py:131 | `append` adds the cell to its own column and leaves every other column unchanged. |
| Currency.PaddingColumn | currency.py:103-105 | A column shorter than `max_length` gains one `' '` cell; a longer one is unchanged. |
| Currency.AddRatesCells | currency.py:130-131 | Each code of the month gains exactly its rate, `float(value.replace(',', '.'))`, as one new cell. Every other column is unchanged. |
| Currency.MonthLabel | currency.py:128 | `strftime("%Y-%m")` has seven characters with a dash at index 4. |
| Currency.MonthLabelRoundTrip | currency.py:128 | The label reads back as the year and the month. |
| Currency.AddDataToDictionary | currency.py:121-134 | The columns are kept. A table without `'date'` is a KeyError, and every code of the month is a column. |
| Currency.AddDataCells | currency.py:121-134 | The table's columns all have one length and at least one rate arrives. Then `'date'` gains the month label, each code of the month gains its rate, and every other column gains `' '`. |
| Currency.AppendCellLengths | currency.py:131-132 | Appending to a column of length `n` makes it `n + 1` and leaves the others alone. |
| Currency.AddRatesLengths | currency.py:130-133 | After the loop the columns of the month's codes are one longer than before, the others unchanged, and the longest updated length is `n + 1`. |
| Currency.DateColumnLengths | currency.py:128 | The date cell lengthens only the `'date'` column. |
| Currency.RatesThenPadding | currency.py:130-134 | After the rates, padding to the longest updated length makes every column `n + 1` long. |
| Currency.PaddingEvensLengths | currency.py:103-105 | Padding to `n + 1` evens out columns of length `n` and `n + 1`. |
| Currency.AddDataKeepsEqualLengths | currency.py:121-134 | With at least one currency this month, columns of one length all grow by exactly one. |
| Currency.AddDataWithoutRates | currency.py:128-134 | With no rates this month nothing is padded and only the `'date'` column grows. |
| Currency.CheckEmptyFieldsNone | currency.py:103-105 | Padding to length 0 changes nothing. |
| Dates.OrdinalRange | date_converter.py:40 | Every valid date has an ordinal in `1..3652059`. Only 0001-01-01 and 9999-12-31 sit at the ends. |
| Dates.NextDay | date_converter.py:40 | The day after a date has the next ordinal. There is none after 9999-12-31 (OverflowError). |
| Dates.PrevDay | date_converter.py:40 | The day before a date has the previous ordinal. There is none before 0001-01-01 (OverflowError). |
| Dates.ShiftDays | date_converter.py:40 | Adding `n` days moves the ordinal by exactly `n`. A failure is an OverflowError. |
| Dates.ShiftDaysForward | date_converter.py:40 | Moving forward succeeds exactly when the target ordinal is at most the last one. |
| Dates.ShiftDaysBackward | date_converter.py:40 | Moving backward succeeds exactly when the target ordinal is at least 1. |
| Dates.ShiftDaysRange | date_converter.py:40 | Adding days succeeds exactly when the target ordinal is in range. |
| Dates.AddMinutes | date_converter.py:38-40 | Adding a `timedelta` of minutes moves the minute count by exactly that much, carrying across days, months and years. The seconds are untouched. |
| Dates.AddMinutesRange | date_converter.py:38-40 | Adding minutes succeeds exactly when the resulting day is in range. |
| Dates.ParseLocal | table.py:180 | Parsing succeeds exactly on the zero-padded shape `YYYY-MM-DD HH:MM:SS` with fields forming a valid date-time. The result is the date-time whose zero-padded text is the input. Any failure is a ValueError. |
| Dates.ParseLocalOfLocalText | table.py:180 | Every valid date-time is read back from its zero-padded text. |
| Dates.LocalPart | date_converter.py:33 | The local part of the export shape keeps every date and time field. |
| Dates.ParseIgnoringZone | date_converter.py:33 | The zone-ignoring parse gives the valid date-time whose text is the timestamp's local part. Text not of the export shape is a ValueError. |
| Dates.ParseIgnoringZoneReads | date_converter.py:33 | A timestamp whose local part is the text of a valid date-time is read as that date-time, whatever its zone. |
| Dates.ReadOffset | date_converter.py:35-38 | The offset is read from the text after the first `'T'`, and that text is longer than 8 characters. A failure is an IndexError or a ValueError. |
| Dates.ReadOffsetOfShape | date_converter.py:35-38 | On the export shape the offset is `±(HH·60 + MM)` from the last four digits: `+` adds and any other sign subtracts. |
| Dates.IsoShapeSplit | date_converter.py:35 | On the export shape the split on `'T'` is the date and the rest. |
| Dates.ConvertToDate | date_converter.py:24-40 | Text not of the export shape is a ValueError. A result is the parsed local time shifted by the offset in minutes, with the seconds unchanged. |
| Dates.ConvertToDateShift | date_converter.py:33-40 | The result differs from the local time by exactly the signed `HH·60 + MM` minutes. |
| Dates.SortByDate | table.py:171-182 | The table's date key reads the offset, then parses, and gives a valid date-time. |
| Dates.SortByDateAgrees | table.py:171-182 | On the export shape, the table's date key and `convert_to_date` give the same date-time. |
| Dates.SortByDateExample | table_tests.py:15-17 | `'2022-05-31T17:32:31+0300'` is 2022-05-31 20:32:31 under both readings. |
| YearParts.DateColumn | csv_parts_creator.py:26 | The date column is the first `'published_at'` title. A missing one is a ValueError. |
| YearParts.FileName | csv_parts_creator.py:28 | The file name is the first four characters of the date cell (all of a shorter cell), then `'.csv'`. A row too short is an IndexError. |
| YearParts.KeyRows | csv_parts_creator.py:27-28 | Each row is paired with its file name, in order. The first short row is an IndexError. |
| YearParts.ParseByYears | csv_parts_creator.py:17-31 | Grouping fails exactly when there is no date column or a row is too short. The groups form a dict. |
| YearParts.SelectIsFilter | csv_parts_creator.py:27-31 | The rows collected under a name are the rows with that file name, in order. |
| YearParts.ParseByYearsPartition | csv_parts_creator.py:25-31 | The groups appear in the first-occurrence order of their year. Each group is exactly the rows of that year, in order, and the group sizes add up to the number of rows. |
| YearParts.RowInItsGroup | csv_parts_creator.py:27-31 | Every row is in the group named by its own file name. |
| YearParts.CreateCsvFiles | csv_parts_creator.py:3-15 | One file per group, each one line longer than its group. |
| YearParts.YearFileContents | csv_parts_creator.py:10-15 | A year file is the header row followed by the input rows of that year, in order. |
| TableFormat.CreateVacancy | table.py:28-43 | The vacancy is built exactly when all twelve keys are present, with each field under its key. Otherwise it is a KeyError. |
| TableFormat.ExperiencePriority | table.py:151-155 | Only the four experience ids have a priority, which is their place in seniority order (0 to 3). |
| TableFormat.ExperienceName | table.py:141-149 | The naming is defined exactly on the four ids and their four titles. |
| TableFormat.ExperienceNamingRoundTrip | table.py:141-149 | Id to title and title to id undo each other. |
| TableFormat.CurrencyName | table.py:161-169 | The naming is defined exactly on the ten codes and their ten titles. |
| TableFormat.CurrencyNamingRoundTrip | table.py:161-169 | Code to title and title to code undo each other, for every code of the rate table. |
| TableFormat.SkillsCountOfCell | table.py:184-187 | The skills key of a raw cell is its number of lines: 1 for a single skill, the list length otherwise. |
| TableFormat.SortByExperience | table.py:189-190 | The key exists exactly for a known id and is that id's seniority. An unknown id is a KeyError. |
| TableFormat.SortByDate | table.py:171-182 | The date key of a text is `Dates.SortByDate` of that text, a valid date-time. A list of lines has no `split` (AttributeError). |
| TableFormat.PlainAttribute | table.py:202 | `vac.__dict__[param]` is defined exactly for the plain attributes. |
| TableFormat.SortingKeyAsWritten | table.py:192-202 | `salary` sorts by the converted salary, `experience_id` by the seniority, `key_skills` by the number of skills, `published_at` by the shifted date, each with its own error. A plain attribute sorts by its value, and any other name is a KeyError. |
| TableFormat.SortingKey | table.py:192-202 | The corrected key: `salary_currency` sorts by the salary's currency, and every other name is as written. |
| TableFormat.ThousandSpace | table.py:206-208 | A text longer than three gets a space before its last three characters, and nothing else changes. |
| TableFormat.ThousandSpaceUnspaced | table.py:206-208 | Removing spaces undoes the inserted space. |
| TableFormat.ThousandSpaceCount | table.py:206-208 | Exactly one space is added, and only to a text longer than three. |
| TableFormat.ModifyNumber | table.py:204-209 | Formatting succeeds exactly when the modelled `float` does, with the same error. Without spaces, the result is `str` of the floor, and the space sits before its last three characters (`ThousandSpace`). |
| TableFormat.ModifyNumberLayout | table.py:204-209 | For any number text, `str` of the floor is split before its last three characters, and kept whole when it has three or fewer. |
| TableFormat.DecimalFloor | table.py:205 | `float('<n>.<digits>')` rounds down to `n`. |
| TableFormat.ModifyNumberOfDecimal | table.py:204-209 | An export bound such as `'35000.0'` is shown like the whole number, so `'35000.0'` gives `'35 000'`. |
| TableFormat.ModifyNumberReadsBack | table.py:204-209 | Without spaces the text parses back to the floor. It holds one space when the number has more than three digits and none otherwise, so a 7-digit number gets one space. |
| TableFormat.ModifyNumberOfWhole | table.py:204-209 | A whole number's text is only given the thousands space. |
| TableFormat.ModifyNumberLong | table_tests.py:25-26 | A number of four or more digits is split before its last three digits, so `'10000'` gives `'10 000'`. |
| TableFormat.ModifyNumberShort | table.py:206-208 | A number below a thousand is shown unchanged. |
| TableFormat.ExperienceNameOf | table.py:214 | The experience shown is the naming of the id. Anything else is an error. |
| TableFormat.CurrencyNameOf | table.py:220 | The currency shown is the naming of the code. Anything else is an error. |
| TableFormat.SalaryText | table.py:217-222 | The salary text exists exactly when both bounds format and the currency has a name. |
| TableFormat.SalaryTextExample | table_tests.py:27-29 | 100 to 200 RUR before tax shows as `'100 - 200 (Рубли) (Без вычета налогов)'`. |
| TableFormat.ShownDate | table.py:224-226 | Fewer than three dash-separated pieces is an IndexError, and a list is an AttributeError. |
| TableFormat.ShownDateOfIso | table.py:224-226 | An export timestamp is shown as `DD.MM.YYYY`. |
| TableFormat.Formatter | table.py:213-227 | Formatting succeeds exactly when the experience, salary and date do. The experience, salary and date are then their formatted texts. Untouched fields stay, and the premium flag is `'Да'` exactly for `'True'`. |
| TableFormat.FormatterExample | table_tests.py:27-29 | The test's analyst vacancy shows the salary text of the test. Its experience title `'Более 6 лет'` translates to `moreThan6`, and its date shows as `DD.MM.YYYY`. |
| TableFormat.Truncate | table.py:280-283 | A text longer than 100 characters becomes its first 100 and `'...'`, and shorter text stays. A list of more than one skill is joined first. Any other list of more than 100 entries is a TypeError. |
| TableFormat.TruncateKeepsStart | table.py:282-283 | Truncation keeps the first 100 characters. |
| TableFormat.TruncateIdempotent | table.py:280-283 | Truncating a truncated cell changes nothing. |
| TableFormat.TruncateCells | table.py:278-283 | Every cell of a row is truncated in attribute order, and the skills cell is joined. |
| TableFormat.TableRow | table.py:276-284 | A row fails with the formatter's error, or holds nine cells, none of them a text longer than 103 characters. |
| TableFormat.TableRowCells | table.py:276-284 | Each cell of a row is the truncation of the formatted vacancy's attribute in `__dict__` order. A name or area of at most 100 characters appears unchanged, and the premium cell is `'Да'` exactly for `'True'`. |
| TableFormat.CreateTable | table.py:266-285 | The table has one row per vacancy, numbered from 1, each the truncated formatted row. It fails exactly when one vacancy cannot be formatted. |
| TableFilters.SalaryTest | table.py:233-234 | The salary test holds exactly when from ≤ value ≤ to, inclusive. The conversion errors follow Python's short-circuit order. |
| TableFilters.FilterBySalary | table.py:232-235 | Filtering succeeds exactly when the test does not raise on any vacancy. The kept vacancies are input vacancies with from ≤ value ≤ to, and every such vacancy is kept. |
| TableFilters.FilterBySalaryAppend | table.py:232-235 | The salary filter keeps input order. On a concatenation the first part's error comes first. |
| TableFilters.FilterBySkills | table.py:237-241 | A vacancy is kept exactly when it has every `', '`-separated requested skill. |
| TableFilters.FilterBySkillsAppend | table.py:237-241 | The skills filter keeps input order. |
| TableFilters.FilterByOneSkill | table.py:238-240 | A value without `', '` asks for one skill, the whole value. |
| TableFilters.FilterByTwoSkills | table.py:238-240 | Asking for `a, b` keeps the vacancies that have `a` and that the request for `b` keeps. |
| TableFilters.DateKey | table.py:244-245 | `'DD.MM.YYYY'` is rewritten as `'YYYY-MM-DD'`. Fewer than two dots is an IndexError. |
| TableFilters.FilterByDate | table.py:243-247 | The kept vacancies are exactly the input vacancies whose `published_at[0:10]` equals the rewritten date. |
| TableFilters.DateKeyOfShownDate | table.py:243-247 | Rewriting the date the formatter shows gives back the timestamp's first ten characters, as an inverse. |
| TableFilters.FilterByShownDate | table.py:243-247 | Filtering by the date shown for a vacancy keeps that vacancy. |
| TableFilters.FilterByDateAppend | table.py:243-247 | The date filter keeps input order. |
| TableFilters.FilterByCurrency | table.py:249-251 | The kept vacancies are exactly the input vacancies whose currency code equals the value. |
| TableFilters.FilterByCurrencyAppend | table.py:249-251 | The currency filter keeps input order. |
| TableFilters.TextFieldOf | table.py:229-230 | The text fields are exactly the six listed attributes. |
| TableFilters.FilterData | table.py:253-264 | A text field keeps exactly the vacancies whose field equals the value. `salary`, `key_skills`, `published_at` and `salary_currency` go to their own filters. An unknown parameter is a KeyError. |
| TableFilters.FilterDataAppend | table.py:253-264 | Every filter keeps input order: a concatenation whose parts both pass filters part by part. It passes exactly when both parts do. |
| TableFilters.FilterDataIdempotent | table.py:260-264 | Filtering the filtered vacancies again with the same parameter and value changes nothing. |
| TableFilters.EngName | table.py:133-139 | Every column title names an attribute of the table or `salary_currency`. |
| TableFilters.CheckFilterParam | table.py:313-324 | An empty filter is accepted and text without `': '` is a format error. Otherwise the filter is accepted exactly when its title is a known key. |
| TableFilters.CheckFilterParamAccepts | table.py:313-324 | A known title, `': '` and any value is accepted. |
| TableFilters.CheckInputValues | table.py:329-341 | No message exactly when all three inputs pass. The filter message comes first and the order message last, present exactly when the order is invalid. |
| TableFilters.CheckInputValuesEmpty | table_tests.py:30-31 | Three empty inputs give no message. |
| TableFilters.SortParam | table.py:76 | A validated sort title names an attribute, and any other title is a KeyError. |
| TableFilters.CurrencySortAsWritten | table.py:192-202 | The currency title passes validation, yet its sort key raises KeyError on every vacancy. |
| TableFilters.CurrencySortCorrected | table.py:192-202 | With the corrected key, every validated sort title has a key except where a computed key fails on the vacancy's own data. |
| Report.HyphenStep | report.py:228-232 | A name with `'-'` becomes its first three hyphen pieces (fewer if it has fewer), joined by `'-\n'`. A name without `'-'` is unchanged. |
| Report.HyphenStepKeepsName | report.py:228-232 | A name with one or two hyphens loses nothing: without the line breaks, the label is the name. |
| Report.HyphenStepDropsRest | report.py:228-232 | A name with three or more hyphens keeps only its first three pieces. |
| Report.FormatCityLabel | report.py:219-236 | A name with `'-'` becomes its first three hyphen pieces joined by `'-\n'`, and then every space becomes a line break. A name without `'-'` or `' '` is unchanged. |
| Report.YearsRows | report.py:72-80 | Rows exist exactly when no series is shorter than the first, which is otherwise an IndexError. Row `i` is the first series' `i`-th key followed by the `i`-th value of each series. |
| Report.YearsRowsColumns | report.py:72-80 | The keys are the first series' keys. Column `j` is series `j`'s values, cut to the first series' length. |
| Report.YearsRowsOfTables | report.py:72-80 | Four maps of one length give one row per year, with that year's four values. |
| Report.YearsRowsOfJoin | report.py:72-80 | The year sheet has one row per year of the statistics, in order, with the year's four figures. |
| Report.CitiesRows | report.py:112-122 | Rows exist exactly when the share table is at least as long as the salary table, which is otherwise an IndexError. There is one row per salary entry. |
| Report.CitiesTablesSplit | report.py:112-122 | Splitting the rows gives back the salary table whole and the share table cut to its length. |
| Report.CitiesRowsSameLength | report.py:112-122 | Tables of one length come back whole. |
| Report.CitiesRowsOfStatistics | report.py:112-122 | The city statistics always fill the sheet, and both tables come back whole. |
| Report.PieData | report.py:266-270 | The pie has an `'Другие'` slice first, then the cities and shares in order. The slices add up to 1. |
| Seqs.Filter | table.py:232-251 | `list(filter(p, xs))` keeps exactly the elements satisfying `p`. |
| Seqs.FilterAppend | table.py:232-251 | Filtering keeps input order: a concatenation filters part by part. |
| Seqs.FilterCount | table.py:232-251 | A kept element is kept as often as it occurs. |
| Seqs.FilterOk | table.py:233-235 | Filtering with a test that may raise succeeds exactly when the test succeeds on every element, and then it is the plain filter. |
| Seqs.FilterOkAppend | table.py:233-235 | On a concatenation, the raising filter gives the first part's error, then the second part's, else both kept parts in order. |
| OrderedMaps.PutGet | statistics.py:169-172 | After `d[k] = v`, `k` maps to `v` and every other key keeps its value. |
| OrderedMaps.Put | statistics.py:169-172 | Assigning an existing key keeps its place, and a new key goes last. |
| OrderedMaps.FromPairs | statistics.py:232 | `dict(zip(…))` builds a dict. |
| OrderedMaps.FromDistinctPairs | statistics.py:232 | Items with distinct keys rebuild into the same dict. |
| OrderedMaps.IncrementFacts | statistics.py:245-248 | One counting step adds the key at 1 or increments it, and the total grows by one. |
| OrderedMaps.TallyKeys | statistics.py:242-249 | The counted keys appear in first-occurrence order. |
| OrderedMaps.TallyCounts | statistics.py:242-249 | Each element maps to its number of occurrences, and absent elements are absent. |
| OrderedMaps.TallySum | statistics.py:242-249 | The counts add up to the number of counted elements. |
| OrderedMaps.AppendToFacts | csv_parts_creator.py:29-31 | One grouping step creates the group if needed, then appends to that group only. |
| OrderedMaps.GroupKeys | csv_parts_creator.py:28-31 | The groups appear in the first-occurrence order of their keys. |
| OrderedMaps.GroupContents | csv_parts_creator.py:28-31 | A key's group holds the values of exactly the items with that key, in order. |
| OrderedMaps.GroupSizes | csv_parts_creator.py:28-31 | The group sizes are the key counts, so they add up to the number of items. |
| Numbers.ParseIntOfIntToString | table.py:205 | `int(str(i)) == i`. |
| Numbers.ParseDecimalOfNatToString | table.py:205 | `float(str(n)) == n` for a whole number. |
| Numbers.NatToString | table.py:205 | `str(n)` is the shortest decimal digits of `n`, reading back as `n`. |
| Numbers.Pad2Value | currency.py:128 | A zero-padded two-digit field reads back as its number. |
| Numbers.Pad2OfDigits | table.py:180 | Two digits are the zero-padded field of their value. |
| Numbers.Pad4Value | currency.py:128 | A zero-padded four-digit year reads back as its number. |
| Numbers.Pad4OfDigits | table.py:180 | Four digits are the zero-padded field of their value. |
| Numbers.ParseDecimalOfParts | statistics.py:121 | `float` of digits, a point and digits is the whole part plus the fraction digits over the matching power of ten. |
| Text.JoinSplitIsReplace | report.py:234 | `'\n'.join(s.split(' '))` replaces every space with a line break. |
| Text.SplitCharPieces | csv_reader.py:46 | Splitting on one character gives one piece more than its occurrences, and no piece contains it. |
| Text.JoinSplit | report.py:234 | Joining a split with its separator restores the text. |
| Text.WordsOfJoin | csv_reader.py:29 | Splitting a space-joined list of words gives the words back. |

## Left out

- **Downloader and network.** `hh_downloader.py` (an HTTP client that runs at import time), `Uploader.upload_data` (network and `eval` of the reply) and `copy_currencies_from_bank_to_csv` (an `rrule` month loop and pandas output) are not part of this model. The month values they feed `add_data_to_dictionary` are its parameters.
- **Concurrency.** `multi_processes.py` and the `Pool` in `run_multiprocessing` are concurrency with no effect on the values. The year records are a sequential map over the years, and reading each year's file is the parameter `vacanciesOf`.
- **Rendering.** All rendering is left out: openpyxl styling and widths, matplotlib drawing, the jinja/pdfkit report, PrettyTable printing (`print_table`), console prints and prompts, `main.py`. The data they are given is modelled.
- **Reading files.** The model starts from already-parsed CSV rows. CSV quoting and file reading, including `utf-8-sig` decoding, are left out.
- **`DataSet.parse_csv` in `statistics.py`.** It indexes the tuple returned by `csv_reader` with string keys (statistics.py:43-46), so it cannot run as written. This orchestration is not modelled; its pieces are.
- **`DataSet.parse_csv` and `print_result` in `table.py`.** They orchestrate the filter, the sort and the table. The sort keys and the sort title lookup are modelled, but `list.sort(key=…, reverse=…)` over them is not.
- **`translate_paramater`.** Its regular-expression test for Cyrillic characters is not modelled.
- **`get_field_value` and `profile`.** `get_field_value` (unused) and the `profile` decorator are left out. So are the commented-out alternative date parsers.
- **The date parser.** dateutil's general parser is modelled only on the `YYYY-MM-DDTHH:MM:SS±HHMM` shape of the exports, and any other text is a ValueError.
- **Floats.** Money, rates and shares are exact reals, not IEEE doubles. So `round(n / total, 4)` is rounding of the exact quotient (`Statistics.Round4`), and `floor(total * 0.01)` is `total / 100`. The doctest values 909.9 and 25.0 hold exactly.
- Numbers.ParseDecimal: models `float` only on optionally signed decimal text (digits with at most one point). Python's `float` also accepts surrounding whitespace, exponents such as `'1e5'`, underscores such as `'1_000'`, and `'inf'`/`'nan'`. Here all of these are ValueError, so `TableFormat.ModifyNumber` and `Salaries.ConvertToRub` reject them too. `int(float('inf'))` in `modify_number` would be an OverflowError. The export files hold plain decimal text.
- TableFormat.ModifyNumber: "succeeds exactly when `float` does" holds for the decimal grammar of `Numbers.ParseDecimal`, not for the wider grammar of Python's `float`.
- Numbers.ParseInt: models `int` only on an optionally signed run of digits. Python's `int` also accepts surrounding whitespace and underscores between digits.
- Dates.ParseLocal: models `strptime(…, "%Y-%m-%d %H:%M:%S")` only on zero-padded fields. `strptime` also accepts unpadded fields such as `'2022-5-31 1:02:03'`, which here are a ValueError. The timestamps of the exports are always padded.
- **Integer widths.** Integers are unbounded, as Python's are.
- **Root `statistics_tests.py`.** It targets an API that does not exist (one-argument `InputConnect`, `get_vacancies_by_age`), so no property is taken from it. The same tests in `tests/statistics_tests.py` are used instead.
- TableFilters.CheckInputValues: the sort message's place between the other two is stated only through the emptiness equivalence and the prefix/suffix facts, not as an exact concatenation.

## Findings

| source | as written | input that shows it | evidently intended | confidence | as-written member | corrected member |
|---|---|---|---|---|---|---|
| table.py:192-202 | `check_input_values` accepts the sort title `'Идентификатор валюты оклада'` because it is a key of `eng_naming` (table.py:139, 333). The title maps to `salary_currency`, which is not a sorting method, so the key falls back to `vac.__dict__['salary_currency']`. A table `Vacancy` has no such attribute, since the currency lives in `vac.salary`, so the sort raises KeyError. | sort title `'Идентификатор валюты оклада'` with any non-empty data, filtered or not | sort by the salary's currency code (`vac.salary.salary_currency`) | high (reasoned from the code; not executed) | TableFilters.CurrencySortAsWritten | TableFilters.CurrencySortCorrected |
