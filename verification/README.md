# DetIE BenchIE prediction script, modelled in Dafny

This project models `detie_benchie_predictions.py` from DetIE. The script runs a DetIE
triplet extractor over the BenchIE gold sentences and writes the extractions in
BenchIE's tab-separated format. Three parts are modelled:

- **`load_sentences`** (module `Annotations`) reads the gold annotation file. It keeps
  every stripped line containing `sent_id:`, splits that line on tabs, and maps the text
  after `sent_id:` in the first field to the second field. A line it cannot split raises.
  So does an id it has already seen.
- **`prepare_detie_benchie_format`** (module `Benchie`) builds the extractor. It tries
  the configuration first and the explicit checkpoint paths second. It then calls the
  extractor once per parsed sentence and keeps every triplet none of whose three fields
  strips to nothing. The kept triplets go into four parallel columns, which are written
  out when `save_file` is set.
- **`main`** (module `Orchestrator`) runs that function for versions 243 and 263 and for
  languages de, en and zh, in that order.
  - A `RuntimeError` starts a scan over every registry name containing `Triplet`. Each
    name is written into the shared configuration and the whole run is retried, whether
    or not an earlier candidate succeeded.
  - Any other exception of a task's first run ends the batch.

Python's `str.strip`, `str.split(sep)` and `in` are spelled out in module `PyStr`. This
includes Python's set of whitespace characters. Exceptions become `Result` values.
Insertion-ordered dicts become sequences of records. The extractor and its two
constructors are function values in a `Backend`. A call of the script is a trace of
events (constructions, extractions, file writes) together with its outcome.

Four behaviours of the code are easy to misread. The model follows the code in each:

- `prefix\tsent_id:42\tThe cat sat.` raises at line 38. The line is split on the tab first, so
  the first field is `prefix`, and `.split("sent_id:")[1]` indexes a one-element list
  (`Annotations.PrefixFieldExample`). The marker is only looked for in the first tab-field.
- The fallback scan at lines 106-115 has no `break`. Every candidate is retried, even after
  one succeeds. The output file therefore holds the last successful candidate's table
  (`Orchestrator.MainOutputFiles`). The model name left in the configuration is the last
  candidate, not the successful one (`Orchestrator.ScanCorrect`).
- Line 103 catches only `RuntimeError`. A first run that raises anything else leaves `main`,
  and no later task runs (`Orchestrator.MainCorrect`). That includes a duplicate sentence id
  and a malformed gold line.
- A `RuntimeError` from anywhere in the call starts the scan. That includes one raised by the
  second constructor at line 54, not only a failure after an extractor was built.

## Model

| member | source | states |
|---|---|---|
| `PyStr.IsSpace` | modules/model/evaluation/carb-openie6/detie_benchie_predictions.py:32 | the characters `str.isspace()` accepts and `str.strip()` removes; its use is stated by `PyStr.Strip` and `PyStr.StripEmptyIff` |
| `PyStr.Contains` | modules/model/evaluation/carb-openie6/detie_benchie_predictions.py:37 | `sep in s`: some index where `sep` occurs; tied to the search by `PyStr.ContainsIffFind` |
| `PyStr.FindFrom` | modules/model/evaluation/carb-openie6/detie_benchie_predictions.py:37-39 | the substring search under `in` and `split` finds the leftmost occurrence at or after a position, and finds nothing exactly when there is no occurrence there |
| `PyStr.ContainsIffFind` | modules/model/evaluation/carb-openie6/detie_benchie_predictions.py:37 | the marker test `"sent_id:" in line` holds exactly when the search from the start finds an occurrence |
| `PyStr.SplitFrom` | modules/model/evaluation/carb-openie6/detie_benchie_predictions.py:38-39 | the pieces of `str.split(sep)` from a position on, at least one; characterised by `PyStr.SplitJoin` and `PyStr.SplitPiecesLeftmost` |
| `PyStr.Split` | modules/model/evaluation/carb-openie6/detie_benchie_predictions.py:38-39 | `str.split(sep)` for a non-empty separator, never an empty list; characterised by `PyStr.SplitJoin` and `PyStr.SplitPiecesLeftmost` |
| `PyStr.SplitJoin` | modules/model/evaluation/carb-openie6/detie_benchie_predictions.py:38-39 | `str.split(sep)` loses nothing: joining its pieces with the separator gives back the string |
| `PyStr.SplitPiecesLeftmost` | modules/model/evaluation/carb-openie6/detie_benchie_predictions.py:38-39 | split cuts at leftmost non-overlapping occurrences: no piece but the last holds the separator, even straddling into the next cut |
| `PyStr.SplitHasSecondPiece` | modules/model/evaluation/carb-openie6/detie_benchie_predictions.py:38-39 | indexing `[1]` after a split is safe exactly when the string contains the separator |
| `PyStr.SplitFirstPiece` | modules/model/evaluation/carb-openie6/detie_benchie_predictions.py:38 | the first split piece is the text before the first separator, or all of it |
| `PyStr.SplitSecondPiece` | modules/model/evaluation/carb-openie6/detie_benchie_predictions.py:38-39 | when the separator first occurs at `i`, the second split piece runs from just after that occurrence to the next one or the end |
| `PyStr.Strip` | modules/model/evaluation/carb-openie6/detie_benchie_predictions.py:32 | `str.strip()` returns the text between the first and last non-whitespace characters, with only whitespace cut off either side |
| `PyStr.StripUnique` | modules/model/evaluation/carb-openie6/detie_benchie_predictions.py:32 | that characterisation has one solution, so strip is pinned down by it |
| `PyStr.StripEmptyIff` | modules/model/evaluation/carb-openie6/detie_benchie_predictions.py:72 | `len(x.strip()) == 0` holds exactly for whitespace-only strings |
| `PyStr.StripIdempotent` | modules/model/evaluation/carb-openie6/detie_benchie_predictions.py:32 | stripping a stripped line changes nothing |
| `PyStr.StripPadding` | modules/model/evaluation/carb-openie6/detie_benchie_predictions.py:32 | whitespace added around a string, tabs included, is removed again by strip |
| `Annotations.ParseMarked` | modules/model/evaluation/carb-openie6/detie_benchie_predictions.py:38-39 | the id and text of one stripped marked line, or the `IndexError` of line 38 or 39; stated by `Annotations.ParseMarkedErrors` and `Annotations.ParseMarkedFields` |
| `Annotations.ParseMarkedErrors` | modules/model/evaluation/carb-openie6/detie_benchie_predictions.py:37-39 | a marked line raises exactly when its first tab-field lacks `sent_id:` (the `[1]` at line 38) or, failing that, when it has no tab (the `[1]` at line 39); it never raises the duplicate error |
| `Annotations.ParseMarkedFields` | modules/model/evaluation/carb-openie6/detie_benchie_predictions.py:38-39 | the id runs from just after the first `sent_id:` to the next `sent_id:` or the first tab; the text runs from the first tab to the second tab or the line's end |
| `Annotations.LoadFrom` | modules/model/evaluation/carb-openie6/detie_benchie_predictions.py:34-42 | the loop over stripped lines with the records already read; stated by `Annotations.LoadSentencesCorrect` and `Annotations.LoadAppend` |
| `Annotations.LoadSentences` | modules/model/evaluation/carb-openie6/detie_benchie_predictions.py:15-44 | `load_sentences` on a file with the given lines; stated by `Annotations.LoadSentencesCorrect` |
| `Annotations.LoadSentencesCorrect` | modules/model/evaluation/carb-openie6/detie_benchie_predictions.py:15-44 | loading succeeds exactly when every marked line is well formed and the ids are distinct; the mapping then has one entry per marked stripped line, in file order, and maps each id to its text |
| `Annotations.DuplicateIdFails` | modules/model/evaluation/carb-openie6/detie_benchie_predictions.py:34-42 | two marked lines with the same id make loading raise the duplicate error, with no partial mapping, whatever follows the second, provided every marked line up to the second is well formed |
| `Annotations.LoadedLineRecorded` | modules/model/evaluation/carb-openie6/detie_benchie_predictions.py:37-42 | when loading returns, the id of every well-formed marked line is a key of the mapping |
| `Annotations.LoadAppend` | modules/model/evaluation/carb-openie6/detie_benchie_predictions.py:34-42 | loading a file in two parts is loading the second part from the mapping the first built; an error in the first part is the result |
| `Annotations.MalformedLineFails` | modules/model/evaluation/carb-openie6/detie_benchie_predictions.py:34-42 | a malformed marked line makes loading fail instead of being skipped; if the lines before it load, the error is that line's |
| `Annotations.LoadSentencesIgnoresUnmarked` | modules/model/evaluation/carb-openie6/detie_benchie_predictions.py:37 | lines without `sent_id:` never change the result, mapping or error |
| `Annotations.StripFirst` | modules/model/evaluation/carb-openie6/detie_benchie_predictions.py:32 | lines are judged only after stripping: files whose lines strip alike load alike |
| `Annotations.PaddingIgnored` | modules/model/evaluation/carb-openie6/detie_benchie_predictions.py:32 | surrounding whitespace, including leading or trailing tabs, on any line changes nothing |
| `Annotations.ParseFormatLine` | modules/model/evaluation/carb-openie6/detie_benchie_predictions.py:37-39 | the gold line `sent_id:<id><TAB><text>` written from a writable record (fields on one line, no tab in either field, no marker in the id, a non-empty text not ending in whitespace) parses back to that record |
| `Annotations.LoadFormatLines` | modules/model/evaluation/carb-openie6/detie_benchie_predictions.py:15-44 | loading inverts writing the gold format: lines written for writable records (as for `Annotations.ParseFormatLine`) with distinct ids load back to the same records in order |
| `Annotations.ParseExample` | modules/model/evaluation/carb-openie6/detie_benchie_predictions.py:37-42 | `sent_id:42<TAB>The cat sat.` loads as id `42` mapped to `The cat sat.` |
| `Annotations.PrefixFieldExample` | modules/model/evaluation/carb-openie6/detie_benchie_predictions.py:38 | `prefix<TAB>sent_id:42<TAB>The cat sat.` raises, because its first tab-field holds no marker |
| `Benchie.RowsColumnsRoundTrip` | modules/model/evaluation/carb-openie6/detie_benchie_predictions.py:61-82 | reading the four columns back row by row gives the same `(sent_id, arg1, rel, arg2)` rows in the same order |
| `Benchie.SkipTestIsInformative` | modules/model/evaluation/carb-openie6/detie_benchie_predictions.py:72 | the skip test at line 72 is false exactly for triplets with no whitespace-only field |
| `Benchie.AppendTriplets` | modules/model/evaluation/carb-openie6/detie_benchie_predictions.py:71-77 | the inner loop over one sentence's triplets; stated by `Benchie.AppendTripletsRows` |
| `Benchie.AppendTripletsRows` | modules/model/evaluation/carb-openie6/detie_benchie_predictions.py:71-77 | the inner loop keeps the columns equally long and appends exactly the informative triplets, unstripped, in extractor order |
| `Benchie.KeptRowsMembership` | modules/model/evaluation/carb-openie6/detie_benchie_predictions.py:71-77 | a row is produced exactly for a returned triplet with no whitespace-only field, under the sentence's id |
| `Benchie.FilterExample` | modules/model/evaluation/carb-openie6/detie_benchie_predictions.py:71-77 | of `("cat","sat","")` and `("cat","sat on","mat")` only the second produces a row |
| `Benchie.Aggregate` | modules/model/evaluation/carb-openie6/detie_benchie_predictions.py:68-77 | the loop over the parsed mapping, recording the extractor calls; stated by `Benchie.AggregateCorrect` |
| `Benchie.AggregateCorrect` | modules/model/evaluation/carb-openie6/detie_benchie_predictions.py:68-77 | the sentence loop calls the extractor once per parsed sentence in mapping order and yields the reference rows; an extractor exception stops it and is re-raised after a prefix of the calls |
| `Benchie.ExpectedRowsBounds` | modules/model/evaluation/carb-openie6/detie_benchie_predictions.py:68-77 | there are no more rows than triplets returned, every row's id is a parsed id, and every row is informative |
| `Benchie.Build` | modules/model/evaluation/carb-openie6/detie_benchie_predictions.py:50-59 | the try/except around the two constructors; stated by `Benchie.PrepareBuilds` |
| `Benchie.RunExtractor` | modules/model/evaluation/carb-openie6/detie_benchie_predictions.py:61-84 | parsing, the sentence loop and the optional write once an extractor exists; stated by `Benchie.PrepareResult`, `Benchie.PrepareRaises` and `Benchie.PrepareWrites` |
| `Benchie.Prepare` | modules/model/evaluation/carb-openie6/detie_benchie_predictions.py:47-84 | one call of `prepare_detie_benchie_format` as a trace and an outcome; stated by `Benchie.PrepareBuilds`, `Benchie.PrepareWrites`, `Benchie.PrepareResult`, `Benchie.PrepareRaises` and `Benchie.PrepareTable` |
| `Benchie.PrepareBuilds` | modules/model/evaluation/carb-openie6/detie_benchie_predictions.py:50-59 | the configuration constructor is tried first; the path constructor is tried exactly when it raised; the extractor used is the configuration-built one when that constructor returns and the path-built one otherwise; if both raise, the call raises the second's exception having extracted and written nothing |
| `Benchie.PrepareWrites` | modules/model/evaluation/carb-openie6/detie_benchie_predictions.py:79-84 | the output file is written once, with the returned table, exactly when `save_file` is set and the call returns; never after a construction, parse or extraction exception |
| `Benchie.PrepareResult` | modules/model/evaluation/carb-openie6/detie_benchie_predictions.py:47-84 | the call returns exactly when an extractor is built, the gold file loads and no extraction raises; the table is then the reference rows, with the extractor called once per sentence; a load error is re-raised; an extractor exception is re-raised as `Benchie.PrepareRaises` states |
| `Benchie.PrepareRaises` | modules/model/evaluation/carb-openie6/detie_benchie_predictions.py:50-77 | the call raises what was raised inside it, unchanged: a constructor's exception when no extractor was built, and otherwise the exception of the first sentence whose extraction raised, so a `RuntimeError` of the extractor reaches line 103 |
| `Benchie.PrepareTable` | modules/model/evaluation/carb-openie6/detie_benchie_predictions.py:61-84 | a returned table is exactly the reference rows of the parsed mapping laid out as the four columns `sent_id, arg1, rel, arg2` |
| `Orchestrator.TaskGrid` | modules/model/evaluation/carb-openie6/detie_benchie_predictions.py:91-94 | the nested version/language loop as a list of tasks, one per pair; stated by `Orchestrator.TaskGridIndex` |
| `Orchestrator.TaskGridIndex` | modules/model/evaluation/carb-openie6/detie_benchie_predictions.py:93-94 | the nested loop visits version `a`, language `b` as task number `a * #languages + b` |
| `Orchestrator.TasksInOrder` | modules/model/evaluation/carb-openie6/detie_benchie_predictions.py:91-94 | the tasks are 243/de, 243/en, 243/zh, 263/de, 263/en, 263/zh, in that order |
| `Orchestrator.Candidates` | modules/model/evaluation/carb-openie6/detie_benchie_predictions.py:106-108 | the registry names the scan retries with, in registry order; stated by `Orchestrator.CandidatesMembership` |
| `Orchestrator.CandidatesMembership` | modules/model/evaluation/carb-openie6/detie_benchie_predictions.py:106-108 | a registry name is retried exactly when it contains `Triplet`; every other name is skipped |
| `Orchestrator.Attempted` | modules/model/evaluation/carb-openie6/detie_benchie_predictions.py:98-102 | one call, which records the task, the configuration used and whether the call is a fallback; where the call writes is stated by `Orchestrator.FaithfulWrites` |
| `Orchestrator.FaithfulWrites` | modules/model/evaluation/carb-openie6/detie_benchie_predictions.py:99-102 | a call made for a task with its version set writes once, to the path named after that version and language, exactly when it returns, and writes the returned table |
| `Orchestrator.FaithfulResult` | modules/model/evaluation/carb-openie6/detie_benchie_predictions.py:47-84 | a call made for a task reads the gold file of that task's language and builds with `most_common` off: it returns exactly when the extractor is built, that file loads and every extraction returns, and then its table holds that file's reference rows |
| `Orchestrator.Scan` | modules/model/evaluation/carb-openie6/detie_benchie_predictions.py:106-115 | the fallback scan over the registry; stated by `Orchestrator.ScanCorrect` |
| `Orchestrator.ScanCorrect` | modules/model/evaluation/carb-openie6/detie_benchie_predictions.py:106-115 | the scan retries once per candidate in registry order, with only the model name changed, whatever earlier retries did, and leaves the last candidate as the model name |
| `Orchestrator.RunTask` | modules/model/evaluation/carb-openie6/detie_benchie_predictions.py:95-115 | one iteration of the inner loop; stated by `Orchestrator.RunTaskCorrect` and `Orchestrator.RunTaskFaithful` |
| `Orchestrator.RunTaskCorrect` | modules/model/evaluation/carb-openie6/detie_benchie_predictions.py:95-115 | a task's first run uses the incoming configuration with the task's version; a `RuntimeError` leads to one retry per candidate and never ends the batch; any other exception ends the batch with that exception |
| `Orchestrator.RunTaskFaithful` | modules/model/evaluation/carb-openie6/detie_benchie_predictions.py:95-111 | every call of a task is made for the task's language and output path with the task's version set, and only the first is not a fallback |
| `Orchestrator.RunTasks` | modules/model/evaluation/carb-openie6/detie_benchie_predictions.py:93-116 | the loop over tasks, threading the configuration, ended by an escaping exception; stated by `Orchestrator.MainCorrect` |
| `Orchestrator.Main` | modules/model/evaluation/carb-openie6/detie_benchie_predictions.py:89-116 | `main(cfg)` over the six tasks; stated by `Orchestrator.MainCorrect` and `Orchestrator.MainOutputFiles` |
| `Orchestrator.MainCorrect` | modules/model/evaluation/carb-openie6/detie_benchie_predictions.py:89-116 | tasks start in loop order; all six start unless a first run raises a non-`RuntimeError`, which ends the batch right after that call; the batch ends early exactly when such a call occurs |
| `Orchestrator.NameCarriesOver` | modules/model/evaluation/carb-openie6/detie_benchie_predictions.py:95-110 | the next task starts from the configuration the previous one left, so a name set by a scan is kept, with only the version reset |
| `Orchestrator.FileHoldsLastSuccess` | modules/model/evaluation/carb-openie6/detie_benchie_predictions.py:99-111 | after any sequence of calls, the last write to a task's output path is the table of the last of its calls that returned; if none returned, the path is not written by these calls |
| `Orchestrator.MainOutputFiles` | modules/model/evaluation/carb-openie6/detie_benchie_predictions.py:89-116 | after `main`, the last write to each task's path is the last successful call's table, so later successful candidates overwrite earlier ones; a task with no successful call leaves its path unwritten by this run |
| `Orchestrator.SecondaryConstructionScenario` | modules/model/evaluation/carb-openie6/detie_benchie_predictions.py:50-59 | when only the path constructor works, and the gold file loads and every extraction returns, the task completes with its rows and no fallback scan |
| `Orchestrator.SecondCandidateScenario` | modules/model/evaluation/carb-openie6/detie_benchie_predictions.py:101-115 | after a `RuntimeError`, when these are the only two candidates, a failing first candidate and a succeeding second give exactly one write, of the second candidate's table; with more candidates every later one that returns writes again |
| `Orchestrator.AllCandidatesFailScenario` | modules/model/evaluation/carb-openie6/detie_benchie_predictions.py:106-116 | when every candidate fails, the task writes nothing and the batch continues |

## Left out

- Reading the gold file (lines 31-32) is not modelled. The file is given as its sequence of lines, as iterating a text file opened in universal-newline mode yields them: a line ends only at `\n`, `\r` or `\r\n`. UTF-8 decoding is not modelled. Other line-break characters such as `\x0b`, `\x0c`, `\x1c`-`\x1e`, `\x85` and the Unicode line separators stay inside a line, and `strip()` removes them only at its ends, as `PyStr.Strip` does.
- Writing the TSV with pandas (lines 79-82) is a `Wrote(path, table)` event. CSV quoting is not modelled. `Benchie.RowsColumnsRoundTrip` and `Benchie.PrepareTable` cover the column layout only.
- `DetIETripletExtractor` is a set of function values in a `Backend`. This covers its two constructors and the model inference behind a call. Its internals are not part of this model.
- `dir(models)` (lines 104 and 106) is the `registry` sequence of an `Env`.
- Hydra configuration loading, `cleanup_hydra` (lines 87-88), `tqdm`, `logging` and the exception messages (lines 48, 53, 104, 113-115) are left out. None of them changes the result.
- The paths built with `os.path.dirname` and f-strings (lines 96-99) become `SavePath(version, language)` and the language argument of `Env.gold`. Two tasks share a path exactly when they share version and language, as the f-string gives.
- The checkpoint and hyperparameter paths are plain fields of `Config`. If the Hydra configuration derives them from `best_version` or `name` by interpolation, that link is not modelled.
- For exceptions raised by the extractor and its constructors, the model keeps only whether they are a `RuntimeError` (`RuntimeError` or `OtherException`); a `RuntimeError` covers its subclasses too. Exceptions of `load_sentences` keep which of its three errors occurred (`ParseFailure`). What is raised inside the extractor and its constructors is whatever the backend functions return.
- I/O exceptions are not modelled: the gold lines are always readable and a write never fails. `open` at line 31 can raise `FileNotFoundError` or another `OSError`. Reading at line 32 can raise `UnicodeDecodeError`. `to_csv` at line 82 can raise `OSError`, for example when the `systems_output` directory is missing, and it does so after the table was built. So `Benchie.PrepareWrites` and `Benchie.PrepareResult` have the call return whenever the sentence loop does. None of these exceptions is a `RuntimeError`. In a task's first run (line 102) each would end `main`, as `OtherException` does in the model. In a fallback call (line 111) it would be caught at line 112, and the scan would go on.
- The configuration constructor at line 51 receives the shared `cfg` object. The model passes a `Config` value, so it assumes the constructors do not change `cfg`. A constructor that did would change the configuration of later calls, and that is not modelled.
- `most_common` is passed through to the constructors unchanged, and `main` always passes `False`.

## Findings

None. The four behaviours listed at the top are stated as the code has them; no input was found on which the code contradicts its own structure.
