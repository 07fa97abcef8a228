# Network availability classifier

A Dafny model of the core of the network availability checker's batch job. For every input row
(`carrier`, `network_name`), the job posts a comparison request to a third-party API. It then
classifies the row from the response and appends one output record. The output records become
the rows of a table with the header `carrier, network_name, isAvailable, Remarks`.

The model has three modules:

- `Wrappers` (wrappers.dfy): `Option` and `Result`.
- `Percent` (percent.dfy): the availability test `re.match(r'^\d+(\.\d+)?%$', value)`.
  - `MatchesPercent` is a hand-written matcher: a greedy digit run, optionally a point and a second
    digit run, then `%`, then the end of the string or one final newline.
  - The reference predicate `PatternMatches` describes the language of the pattern directly.
  - The lemma `MatchesPercentIsPattern` proves that the two agree on every string.
  - Python's `$` also matches just before a single newline that ends the string, so `"87%\n"` is
    accepted. The model includes this case; it does not exclude it by a precondition.
- `Availability` (availability.dfy): the per-record classification and the row loop.
  - The HTTP exchange becomes a `Response` value: a status code and the decoded `data` object,
    which maps each metric name to its list of mappings from network name to value. `data` is
    `None` when the body has no such object.
  - `Classify` is the specification of one row: "classify the last value".
    - A status other than 200 gives `("false", "No response from API")`.
    - On 200, the final mapping of the last non-empty list decides. The lists are taken in the
      order `percentage_medicare`, `percentage_discount`, `percentage_completeness`.
    - A percentage gives `("true", "OK")`; anything else gives `("false", "Unavailable")`.
    - When every list is empty, the record keeps only `carrier` and `network_name`.
  - `ClassifyRow` and `TestList` are the nested loops as written. Each test overwrites both fields.
    They are proved equal to `Classify`.
  - `Batch` specifies the whole run and `RunBatch` is the loop that appends to `result`.

A missing key is an uncaught `KeyError` that ends the whole run. This covers a body without
`data` (line 79), a missing metric list (line 79), and a mapping without the row's network name
(line 81). The model returns `Failure(KeyError(key))` for these, and the batch stops at the first
row that fails. A mapping without the row's network name is not downgraded to unavailable: the
lookup at main.py:81 raises `KeyError`, which ends the run.

The last-value-wins classification is modelled as written. The values examined before the last
one are tested and then overwritten, and `EarlierValuesIgnored` states that they have no effect.

## Model

| member | source | states |
|---|---|---|
| `Percent.MatchesPercentIsPattern` | main.py:34 | The matcher accepts a string exactly when it is one or more digits, optionally a point and one or more digits, then `%`, with nothing after it or exactly one final newline. |
| `Percent.MatchesPercent` | main.py:81 | The matcher applied to each value. Its own contract: an accepted string starts with a digit and ends in `%`, or in `%` and one newline; `MatchesPercentIsPattern` proves it accepts exactly the pattern's language. |
| `Percent.MatchesPercentSound` | main.py:81 | Every string the matcher accepts is in the language of the anchored pattern. |
| `Percent.MatchesPercentComplete` | main.py:81 | Every string in the language of the pattern is accepted, alone or followed by one newline. |
| `Percent.DigitRun` | main.py:34 | The greedy `\d+` step: the returned length covers only digits, and the character right after it, if any, is not a digit. |
| `Percent.DigitRunExact` | main.py:34 | A digit run that stops at a non-digit or at the end of the string is exactly the run `DigitRun` finds. |
| `Percent.MatchesPercentAccepts` | main.py:34 | `"0%"`, `"0.5%"`, `"100%"`, `"12.5%"` and `"87%\n"` are accepted. |
| `Percent.MatchesPercentRejects` | main.py:34 | `"%"`, `"abc%"`, `"50"`, `".5%"`, `"n/a"` and `" 87%"` are rejected. |
| `Percent.MatchesPercentRejectsFractions` | main.py:34 | `"5.%"` and `"1.2.3%"` are rejected. |
| `Percent.MatchesPercentRejectsNewlines` | main.py:34 | `"87%\n\n"` is rejected: `$` allows only one final newline. |
| `Availability.MissingKey` | main.py:78-81 | The key whose lookup fails first is none exactly when every metric list is present and each of its mappings has the network name; otherwise it is that network name or a metric name. |
| `Availability.Classify` | main.py:75-91 | A record keeps the row's carrier and network name, and any status other than 200 gives `("false", "No response from API")` whatever the body. |
| `Availability.ClassifyFailure` | main.py:79-81 | A row aborts the run exactly when the status is 200 and the body lacks `data`, lacks a metric list, or has a mapping without the network name. The error names `data`, the metric or the network; a 200 response without `data` aborts with `KeyError("data")`. |
| `Availability.ClassifyRow` | main.py:75-91 | The nested loops, with their overwrites and the lookups that raise, produce exactly `Classify` of the row and response. |
| `Availability.Judge` | main.py:81-86 | One test writes `("true", "OK")` exactly when the value matches the pattern, and `("false", "Unavailable")` exactly when it does not. |
| `Availability.TestList` | main.py:80-86 | The inner loop fails exactly when some mapping lacks the key. Otherwise the fields afterwards are those of the final mapping's value, or unchanged when the list is empty. |
| `Availability.LastExaminedIsLast` | main.py:78-86 | The final mapping of the last non-empty list is the last value the loops test, and there is none exactly when no value is tested. |
| `Availability.ClassifyIsLastWrite` | main.py:78-87 | On 200 with every lookup succeeding, the record carries the fields left by the last of all overwrites in walking order. |
| `Availability.ExaminedStep` | main.py:78-80 | Walking one more metric list appends that list's values to the values examined so far. |
| `Availability.ClassifyFailsAt` | main.py:79-81 | When the lists before position `i` pass, a missing list at `i` aborts with that metric's name, and a mapping at `i` without the network aborts with the network name. |
| `Availability.MissingKeyAt` | main.py:78-81 | When the metrics before position `i` pass, the first failing lookup is the one at `i`. |
| `Availability.CoveredPrefix` | main.py:78-81 | If every lookup over all metric lists succeeds, so does every lookup over any leading part of them. |
| `Availability.ExaminedEmpty` | main.py:78-80 | No value is examined exactly when every metric list is empty. |
| `Availability.LastValueDecides` | main.py:81-86 | On 200 with at least one value examined, the fields are `("true", "OK")` if and only if the last value matches the pattern, and `("false", "Unavailable")` if and only if it does not. |
| `Availability.EarlierValuesIgnored` | main.py:78-86 | Two well-formed 200 responses whose last examined values are equal classify the row identically, so earlier values have no effect. |
| `Availability.NoValuesNoFields` | main.py:75-87 | A record lacks `isAvailable` and `Remarks` exactly when the status is 200 and all three metric lists are empty. |
| `Availability.FieldsPaired` | main.py:82-90 | The two fields are set together. They are one of the three pairs the code writes: `"true"` only with `"OK"`, and `"false"` only with `"Unavailable"` or `"No response from API"`. |
| `Availability.Batch` | main.py:35-91 | A successful run has exactly one record per input row. |
| `Availability.BatchRecords` | main.py:39-91 | Record `i` of a successful run is the classification of row `i` and its own response alone, with that row's carrier and network name, in input order. |
| `Availability.BatchFailure` | main.py:39-91 | A failed run carries the error of its first failing row, and every earlier row classified without error. |
| `Availability.RunBatch` | main.py:35-91 | The row loop that appends to `result` yields exactly `Batch` of the rows and their responses. |
| `Availability.BatchAbortsAt` | main.py:39-91 | Once the rows before `i` pass, a failing row `i` ends the whole run with that row's error. |
| `Availability.BatchWritable` | main.py:98-102 | Every record of a successful run can be written: the table is the header followed by one row per input row, in order, whose first two cells are that row's carrier and network name. |
| `Availability.CsvTable` | main.py:98-102 | The written table has the header as its first row and one more row per record. |
| `Availability.TableRows` | main.py:98-102 | The written table has the header first, and its row `i + 1` holds the cells of record `i`. |
| `Availability.CsvRow` | main.py:98-102 | The written row has one cell per header column, carrier and network name first. The `isAvailable` and `Remarks` cells are empty exactly when the record has no fields. |

## Left out

- Configuration loading and path resolution (main.py:16-28, 93-96, and utils.py). These are file-system lookups with no logic of the program's own.
- The HTTP POST (main.py:74). Its request body (main.py:40-72) is a constant with the row's two values substituted. The model takes the responses as an input sequence, one per row, where `resps[i]` answers `rows[i]`.
- Exceptions raised by the request itself (connection errors): they would end the run, and the model does not represent them.
- JSON decoding (main.py:79): the response already holds the decoded `data` object.
  - A body that is not JSON is folded into "no `data` object", although Python raises a decoding error rather than `KeyError('data')`.
  - Wrongly typed JSON (a metric that is not a list, a mapping that is not an object, a value that is not a string) is not modelled. Python raises `TypeError` there, except that a metric that is an empty object or an empty string is iterated zero times at main.py:80, exactly like an empty list, and raises nothing.
- Percent.MatchesPercent: `\d` is read as the ASCII digits `0`-`9`. Python 3's `\d` also accepts other Unicode decimal digits, which this model rejects.
- CSV reading (main.py:37-39). Rows are given as `(carrier, network_name)` values, and `DictReader`'s handling of short or blank rows is not modelled.
- CSV writing (main.py:98-102): `CsvRow` gives the cells of one row, but quoting and escaping are not modelled.
- The console message (main.py:104), the email step `sendEmail` (main.py:114-140) and the command-line entry point `cli` (main.py:143-156). These are network I/O, a swallowed exception and argument parsing.
- Availability.ClassifyRow: `output_dict` is modelled as the record's two fixed fields plus one optional pair, not as a general dictionary. The code always writes `isAvailable` and `Remarks` together, so the two keys are present or absent together.
