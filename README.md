# easyAbstractClassification — a verified model of `abstract_processing.py`

`abstract_processing.py` classifies the abstracts of a spreadsheet against groups of
keywords. It asks a local OpenAI-compatible chat endpoint, over a streamed response,
whether each abstract relates to each keyword group. Each question is asked `run_times`
times and the runs are reduced to a verdict. The script writes one result column per
group back into a copy of the spreadsheet, saving every so often.

This project models the four decision rules under that plumbing, plus the loop that
drives them:

- `Text` (text.dfy): Python's `str.split`, `str.strip`, the "first alphabetic character"
  generator, and the decimal rendering used in column names.
- `Settings` (config.dfy): keyword-group parsing, and the group/answer count check that
  raises `ValueError`.
- `ResponseExtractor` (extractor.dfy): the scan of one streamed response, line by line,
  for the first content fragment whose first letter is `'Y'` or `'N'`.
- `QueryRunner` (query.dfy): one run, with up to `max_retries` attempts.
- `ConsistencyVoter` (voter.dfy): the vote over the runs of one question.
- `RecordClassifier` (classifier.dfy): `process_abstract`, the result map of one record.
- `BatchScheduler` (batch.dfy): the completion loop. It writes results into the table,
  marks rows processed and saves on the script's cadence. It is modelled as the class
  `Workbook`, which owns the table (an `array`), the pending list `batch_results`, the
  file as last saved, and a save counter.

The network is an input. An `AttemptFeed` says what the endpoint does on each attempt of
a run. A `RecordFeed` gives one `AttemptFeed` per (group, run) of a record. A `BatchFeed`
gives one `RecordFeed` per record. The thread pool's completion order is an input too:
a sequence `order` that must be a permutation of the submitted row indices.

## Model

| member | source | states |
|---|---|---|
| Text.Split | abstract_processing.py:53 | `s.split(sep)` yields one piece more than `sep` occurs in `s`, and no piece contains `sep` |
| Text.JoinSplit | abstract_processing.py:53 | joining the pieces of `s.split(sep)` with `sep` gives back `s` |
| Text.SplitJoin | abstract_processing.py:68 | splitting a `sep`-join of separator-free parts gives back the parts |
| Text.TrimLeftSpec | abstract_processing.py:53 | `lstrip` keeps a suffix, cuts only whitespace, and leaves no leading whitespace |
| Text.TrimRightSpec | abstract_processing.py:53 | `rstrip` keeps a prefix, cuts only whitespace, and leaves no trailing whitespace |
| Text.StripSpec | abstract_processing.py:53 | `Text.Strip` (`str.strip`) returns an infix of `s` that is surrounded only by whitespace and has clean ends |
| Text.StrippedFromUnique | abstract_processing.py:53 | any infix with that property is `strip`'s result, so the property defines `strip` |
| Text.StripBetween | abstract_processing.py:68 | stripping whitespace + `s[i..j]` + whitespace, where `s[i..j]` has clean ends, gives `s[i..j]` |
| Text.StripKeepsOut | abstract_processing.py:68 | stripping adds no character, so a separator absent before is absent after |
| Text.StripIdempotent | abstract_processing.py:71 | stripping twice is stripping once |
| Text.StripClean | abstract_processing.py:71 | a text without whitespace at either end is left unchanged |
| Text.FirstAlpha | abstract_processing.py:104 | `None` exactly when the text has no letter; otherwise the first letter of the text |
| Text.ParseNatToString | abstract_processing.py:123 | the decimal rendering of `j + 1` in a column name reads back as `j + 1` |
| Text.NatToStringInjective | abstract_processing.py:123 | different numbers render differently |
| Settings.KeywordGroups | abstract_processing.py:53 | one group per `;`-separated piece, each the stripped piece and free of `;` |
| Settings.GroupKeywords | abstract_processing.py:68 | one keyword per `,`-separated piece of a group, each the stripped piece and free of `,` |
| Settings.ParseConfig | abstract_processing.py:53-56 | succeeds exactly when the `;` count of the keyword list equals the `,` count of the example answers; on success the groups and answers are the parsed pieces, in equal number; on failure the error carries two different counts |
| Settings.ExampleAnswer | abstract_processing.py:71 | the example answer of group `j` is the `j`-th answer with surrounding whitespace cut |
| ResponseExtractor.Content | abstract_processing.py:95-103 | a line hands a fragment to the scan exactly when it is non-empty, starts with `data: ` and decodes to a delta with non-empty content |
| ResponseExtractor.Decide | abstract_processing.py:117 | the run answer is the letter when it is `'Y'` or `'N'`, and `'N/A'` otherwise |
| ResponseExtractor.StreamAnswerSpec | abstract_processing.py:94-106 | `StreamAnswer`, the outcome of the scan, is `'N/A'` exactly when no line decides (`LineAnswer` is `'N/A'` for every line); otherwise it is what its first deciding line decides |
| ResponseExtractor.ScanStream | abstract_processing.py:94-109 | the loop over `iter_lines`, with `break`, leaves `first_valid_char` deciding the stream's answer, whatever non-qualifying value it started with |
| ResponseExtractor.StreamAnswerCons | abstract_processing.py:103-106 | the first line decides, or the rest of the stream does |
| ResponseExtractor.SkippedLineTransparent | abstract_processing.py:95-109 | a line that decides nothing can be removed from anywhere in the stream without changing the answer |
| ResponseExtractor.SkippedLines | abstract_processing.py:95-103 | empty lines, lines without `data: `, undecodable JSON, missing `choices`/`delta`, and absent or empty content all decide nothing |
| ResponseExtractor.FirstLetterDecides | abstract_processing.py:104 | text after a fragment's first letter never changes what the fragment decides |
| ResponseExtractor.SampleFragments | abstract_processing.py:103-106 | the fragments "She" and "thinks Yes" decide nothing, "Yes" decides `'Y'` and "No, not really" decides `'N'` |
| QueryRunner.FirstAnswered | abstract_processing.py:89-111 | the first attempt below `max_retries` that decides; every attempt before it decided nothing |
| QueryRunner.RunQuery | abstract_processing.py:88-117 | the result is `RunAnswer` and the attempt count `AttemptsMade`: at most `max(max_retries, 0)` attempts; a `'Y'`/`'N'` result is the answer of the last attempt made, and every earlier attempt decided nothing; `'N/A'` means every allowed attempt was made and none decided |
| QueryRunner.FailuresExhaustRetries | abstract_processing.py:112-115 | when every attempt is a request exception or a non-200 status, each consumes one attempt, all `max_retries` are used, and the result is `'N/A'` |
| QueryRunner.NoRetriesNoAnswer | abstract_processing.py:89 | with `max_retries <= 0` no attempt is made and the result is `'N/A'` |
| QueryRunner.LaterAttemptsIgnored | abstract_processing.py:110-111 | what the endpoint would do after the first deciding attempt, or on an attempt never made, never affects the run |
| ConsistencyVoter.Vote | abstract_processing.py:122-125 | `Yes` exactly when every run is `'Y'`; `No` exactly when every run is `'N'` |
| ConsistencyVoter.VoteUncertain | abstract_processing.py:122-125 | `Uncertain` exactly when some run is `'N/A'` or the runs contain both `'Y'` and `'N'` |
| ConsistencyVoter.VoteIgnoresOrder | abstract_processing.py:122 | reordering the runs never changes the verdict |
| ConsistencyVoter.AllAreCount | abstract_processing.py:122 | `all(r == x ...)` holds exactly when `x` occurs as often as there are runs |
| ConsistencyVoter.SampleVotes | abstract_processing.py:122-125 | `[Y,Y,Y]` gives Yes, `[N,N,N]` gives No, `[Y,N,Y]` and `[N/A,N/A,N/A]` give Uncertain |
| RecordClassifier.ColumnKeyInjective | abstract_processing.py:123 | `ColumnKey(j)`, the key `Keyword_Group_{j+1}_Response`, is the same for two groups only when they are the same group |
| RecordClassifier.RunsSpec | abstract_processing.py:73-118 | run `r` of group `j` is a fresh run with its own attempts, and its result is entry `r` of `consistent_responses` |
| RecordClassifier.ClassificationSpec | abstract_processing.py:67-125 | `Classification`, the `results` map, has exactly one key `Keyword_Group_{j+1}_Response` per group, holding that group's vote |
| RecordClassifier.ClassificationKeys | abstract_processing.py:67-125 | the keys of the result map are exactly the columns of the groups |
| RecordClassifier.ClassificationValues | abstract_processing.py:122-125 | under each group's column is that group's vote |
| RecordClassifier.ClassificationAt | abstract_processing.py:122-125 | a later group never overwrites an earlier group's entry |
| RecordClassifier.ClassificationKeepsEarlier | abstract_processing.py:123-125 | adding a group leaves every earlier entry as it was |
| RecordClassifier.ColumnKeysStep | abstract_processing.py:123 | the columns of `n + 1` groups are those of `n` groups plus one |
| RecordClassifier.ProcessAbstract | abstract_processing.py:62-127 | the nested loops return the record's own index and the result map of its groups |
| RecordClassifier.AlternatingEndpoint | abstract_processing.py:122-125 | two groups, three runs, an endpoint that always says Y for the first group and alternates Y, N for the second: the result is Yes and Uncertain |
| BatchScheduler.Unprocessed | abstract_processing.py:133-134 | the submitted indices are exactly the rows with `Processed` false, in increasing index order |
| BatchScheduler.InLoopSavesBlocks | abstract_processing.py:143-146 | `n` completions trigger `ceil(n / 12)` in-loop saves |
| BatchScheduler.SaveCountSpec | abstract_processing.py:143-149 | `SaveCount(n)`, the saves of a run of `n` completions, is `ceil(n / 12)` in-loop saves plus one final save when `n > 0` and `(n - 1) % 12 != 0`; some save happens exactly when `n > 0` |
| BatchScheduler.SampleCadence | abstract_processing.py:143-149 | 30 completions give 3 in-loop saves, 5 pending entries and 1 final save; 0 completions give no save |
| BatchScheduler.PermutationOfUnprocessed | abstract_processing.py:133-136 | any completion order holds each unprocessed row exactly once and nothing else |
| BatchScheduler.SecondPassIdle | abstract_processing.py:133-134 | over a table whose rows are all processed, nothing is submitted and nothing is saved |
| BatchScheduler.NoneLeft | abstract_processing.py:133-134 | a table whose rows are all processed has nothing to submit |
| BatchScheduler.OneWrittenBack | abstract_processing.py:137-140 | each completion replaces its own row by `Completed(row, results)` and changes no other row |
| BatchScheduler.CompletedSpec | abstract_processing.py:138-140 | `Completed(row, results)` is processed; each result column holds the record's result, and every other column keeps its old value |
| BatchScheduler.AllWrittenBack | abstract_processing.py:136-140 | after every completion, each formerly unprocessed row is processed and holds its record's results, every other row is unchanged, and nothing is left to submit |
| BatchScheduler.WrittenBackRows | abstract_processing.py:137-140 | writing back exactly the unprocessed rows completes each of them and only them |
| BatchScheduler.Workbook.Load | abstract_processing.py:38 | the table in memory and on file is the file read |
| BatchScheduler.Workbook.Complete | abstract_processing.py:137-146 | writes the results and sets the `Processed` flag of row `i` only; the pending list stays shorter than 12; a save happens (and empties the pending list) exactly when the 0-based count is a multiple of 12 |
| BatchScheduler.Workbook.CompleteAll | abstract_processing.py:136-146 | after the completions in `order`, the table is the original with each completed row written back, and `ceil(n / 12)` in-loop saves have happened |
| BatchScheduler.Workbook.Run | abstract_processing.py:132-149 | after the pool drains, the table is the original with every unprocessed row written back; the file holds the table; `SaveCount(n)` saves in all, that is `ceil(n / 12)` in the loop plus one final save when `n > 0` and `(n - 1) % 12 != 0` |
| BatchScheduler.RestartAfterRun | abstract_processing.py:133-148 | after a run the saved file has no unprocessed row, so running the script again on it submits nothing, saves nothing and leaves the table as it is |
| BatchScheduler.ProcessFile | abstract_processing.py:53-149 | a count mismatch raises before any completion is written or saved, leaving table and file as they were; otherwise the table is the original with every unprocessed row written back, nothing is left unprocessed, the file holds the table, and `SaveCount(n)` saves happen |

## Left out

- Reading `config.yaml`, copying the spreadsheet, reading and writing Excel, and adding
  the `Processed` and result columns (lines 19-43, 58-60) are file I/O. A save is
  modelled as `saved` becoming the table and `saves` counting up.
- `requests.post`, `response.iter_lines`, UTF-8 decoding and `json.loads` (lines 91-100)
  are calls into libraries. Each attempt is an `Attempt` given by the feed. Each line is
  its decoded text plus what its payload decodes to.
- Exceptions other than `JSONDecodeError` inside the line scan are not modelled. Examples:
  an empty `choices` list raising `IndexError`, a non-object JSON value, and non-string
  content. The script does not catch them, and they would end the whole run.
- `ThreadPoolExecutor` and `as_completed` (lines 132-136) run `process_abstract`
  concurrently. The model runs the records one after another in the given `order`, which
  can be any permutation of the submitted indices. `process_abstract` reads no shared
  state that the loop writes, so the order changes only the save points.
- On a first run, lines 40-42 add the `Processed` column as false and save the copy
  before the count check on line 54. That save belongs to the file setup and is not
  modelled; `BatchScheduler.ProcessFile` starts from a table that already has the flag.
- Logging and the `tqdm` progress bar are output only.
- Prompt and payload construction (lines 69-86) is text templating. The prompt and
  the example answer reach the endpoint only through the feed. The keyword list of a
  group (`Settings.GroupKeywords`) and the example answer (`Settings.ExampleAnswer`) are
  modelled, but they do not feed into `RecordClassifier.ProcessAbstract`. Titles and
  abstracts are not modelled for the same reason.
- `str.isalpha` and `str.strip` follow Unicode. The model uses ASCII letters, and the
  whitespace set of `str.strip` restricted to ASCII (the ASCII characters Python counts
  as whitespace, 0x1C-0x1F included).
- ConsistencyVoter.Vote: requires at least one run. With `run_times <= 0` the script
  indexes an empty list and raises `IndexError`, which is not modelled.
- RecordClassifier.ProcessAbstract: requires `run_times >= 1` whenever there is a keyword
  group, for the same reason.
- BatchScheduler.Workbook.Run: requires the pending list to be empty at the start, as it
  is when the script starts.
- BatchScheduler.ProcessFile: requires `run_times >= 1` when the counts agree and some
  row is pending. With `run_times <= 0` the first `future.result()` raises `IndexError`
  (line 123), which is not modelled; a count mismatch is modelled for every `run_times`.
- Every attempt is assumed to finish: `requests.post` (line 91) sets no timeout, so an
  endpoint that never answers, or a stream that never ends without deciding, blocks its
  worker and `as_completed` (line 136) forever, and the final save never happens. The
  model's `Attempt` is always a finished response with finitely many lines, so a hang,
  and the lost save after it, are not modelled.

## Notes

- Saves inside the loop happen after the completion whose 0-based count (line 136) is a
  multiple of 12 (line 143): the 1st, 13th, 25th, and so on, not after every twelfth.
- A keyword group's result is only ever 'Y', 'N' or 'Uncertain' (lines 122-125), so
  `Verdict` has exactly these three values; 'N/A' appears only at run level.
- After the final save (line 148), `batch_results` is not cleared. The model keeps that:
  after `Run` the pending list holds `BatchSize(n)` entries.
