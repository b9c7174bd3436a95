# Screenplay fine-tuning dataset pipeline, modelled in Dafny

This project models the core of a small pipeline of Python scripts. The scripts turn raw screenplays into a JSON-lines fine-tuning dataset and then clean it. Each script is one module:

| module | script | what it does |
|---|---|---|
| `Scenes` | `scenes_split.py` | cuts a screenplay into scenes at lines starting with `INT.` or `EXT.`, and emits one (previous scene -> next scene) example per consecutive pair |
| `ParagraphSplit`, `TopK`, `LongEntries` | `long_entries.py` | finds the `topk` longest records by token count; rewrites every over-budget record, either as one record per paragraph or with its output truncated to the budget |
| `Backfill` | `backfill.py` | finds the raw script each record's output came from (case-insensitive substring search, then a fuzzy file-name match), then records the file in `source_file` and, when missing, as `movie_title` in the input |
| `DedupeCap`, `QuotaFilter` | `dedupe_and_cap_per_movie.py` | drops records whose signature (a hash of the first 400 characters of input and output) was already written, and keeps at most 1000 records per movie key |
| `Dedupe`, `QuotaFilter` | `dedupe.py` | the earlier variant: 300-character signatures and a simpler movie key |
| `TrainVal` | `create_train_val.py` | sends `max(1, 5%)` of the lines, chosen by a seeded shuffle, to the validation file and the rest to the training file, marking every output with `<\|end_of_scene\|>` |
| `Validate` | `validate_jsonl_dataset.py` | counts records, records with a missing key, records with an empty output and duplicate signatures, and keeps the first five records as samples |

Shared modules:
- `Base`: `Option`, `Outcome` (`Done(v)` or `Aborted` for an uncaught exception), subsequences, counting and filtering.
- `Text`: Python's `strip`, slicing, `in`, `lower`, `os.path.splitext`.
- `Json`: decoded JSON values with Python truthiness and `dict.get`.
- `Lines`: the three ways the scripts skip blank lines before `json.loads`.

Every filtering loop is a fold over the parsed records. A fold lemma proves the loop's invariant, and the script's promises are stated over the whole file.

Things the scripts cannot compute themselves are parameters:
- `json.loads`, `json.dumps` and `str()` are the `Codec` oracle; `parse` returns `None` where `json.loads` raises.
- SHA-256 is a `string -> string` function.
- The tokenizer's `encode` and `decode` return `None` where they raise.
- `difflib.get_close_matches` is an oracle from a prefix and the names to at most one name.
- `random.Random(42).shuffle` is any permutation of the line numbers.
- Files are sequences of lines without their newline, and a directory is a sequence of (name, text) pairs.

Where the code and its comments disagree, the model follows the code:
- The docstring of `extract_movie_key` promises only a string key, never None; it says nothing about stripping. The code strips the title branches but not the genre branch, so a genre key keeps its spaces until `main` strips it again (`GenreKeyKeepsSpaces`, `CountedGenreKeyIsStripped`).
- Its last-resort genre block can never fire: whenever it would find a genre, the first block has already returned one (`GenreFallbackIsDead`).
- The comment in `create_train_val.py` calls the stop-marker append idempotent. It is not: a second run appends a second marker (`MarkTwice`).

## Model

| member | source | states |
|---|---|---|
| DedupeCap.SigIgnoresTail | dedupe_and_cap_per_movie.py:24-26 | any two pairs whose inputs agree on their first 400 characters, and whose outputs do too, have the same signature, whatever follows |
| DedupeCap.SigTextNotInjective | dedupe_and_cap_per_movie.py:24-26 | the `"\|\|"` separator does not keep pairs apart: for all short enough `a`, `b`, `c`, the different pairs `(a + "\|\|" + b, c)` and `(a, b + "\|\|" + c)` hash the same text |
| Json.FirstTruthy | dedupe_and_cap_per_movie.py:35-37 | the candidate loop returns the value of the first listed key that is present and truthy, and None exactly when no key is |
| Json.FirstTruthyIgnoresFalsy | dedupe_and_cap_per_movie.py:36 | a falsy value under a listed key is skipped as if the key were absent |
| DedupeCap.TopLevelFieldWins | dedupe_and_cap_per_movie.py:34-37 | a truthy top-level `source_file`/`movie_title`/`title`/`MovieTitle`/`movie` decides the key, stripped, whatever the input holds |
| DedupeCap.FalsyTopLevelFieldFallsThrough | dedupe_and_cap_per_movie.py:35-37 | an empty or otherwise falsy top-level field gives the same key as the field being absent |
| DedupeCap.NonObjectIsUnknown | dedupe_and_cap_per_movie.py:34-76 | a record that is not an object gets `UNKNOWN_MOVIE` |
| DedupeCap.TitleKeysAreStripped | dedupe_and_cap_per_movie.py:35-37 | a key taken from a top-level field has no surrounding whitespace |
| DedupeCap.GenreFallbackIsDead | dedupe_and_cap_per_movie.py:28-76 | the key is the first truthy candidate of the first block, or `UNKNOWN_MOVIE`; the second `try` block never decides it |
| DedupeCap.GenreKeyKeepsSpaces | dedupe_and_cap_per_movie.py:54-59 | a genre key is built without stripping: an input whose only movie field is the genre `g` gives exactly `"__GENRE_" + g`, trailing whitespace included |
| DedupeCap.CountedGenreKeyIsStripped | dedupe_and_cap_per_movie.py:109-111 | `main` strips the key before counting: a genre `w + " "` is counted under `"__GENRE_" + w` |
| DedupeCap.MovieKey | dedupe_and_cap_per_movie.py:109-111 | the key a record is counted under has no surrounding whitespace |
| DedupeCap.DedupeAndCap | dedupe_and_cap_per_movie.py:91-120 | record `i` is written exactly when no record written before it has its signature and fewer than 1000 of them have its movie key, and the output is what has been written after the last record; the written records are an ordered subsequence of the parsed records; each record is written, a duplicate or over the cap; no two written records share a signature; each movie's counter equals its written records and is at most 1000 |
| QuotaFilter.RunInvariant | dedupe_and_cap_per_movie.py:104-120 | after every prefix: `seen` is the set of written signatures, these are pairwise distinct, and every counter equals the written records with its key and is at most the cap |
| QuotaFilter.WrittenIsOrderedSubsequence | dedupe_and_cap_per_movie.py:104-120 | the output keeps input order and drops only records, and written + duplicates + capped equals the records read |
| QuotaFilter.WrittenSignaturesDistinct | dedupe_and_cap_per_movie.py:105-118 | no two written records share a signature, because a signature enters `seen` only on acceptance |
| QuotaFilter.CountsMatchWritten | dedupe_and_cap_per_movie.py:112-119 | every key's counter is the number of written records with that key and never exceeds the cap |
| QuotaFilter.DuplicateSkippedFirst | dedupe_and_cap_per_movie.py:104-107 | a record whose signature was written before only increments the duplicate counter, whatever its key's quota |
| QuotaFilter.CapSkipLeavesSeenUnchanged | dedupe_and_cap_per_movie.py:112-114 | a new signature whose key is at the cap only increments the cap counter; its signature does not enter `seen` |
| QuotaFilter.FreshRecordWritten | dedupe_and_cap_per_movie.py:116-120 | a new signature under the cap is appended to the output and its signature enters `seen` |
| QuotaFilter.WrittenWhenAdmitted | dedupe_and_cap_per_movie.py:104-120 | record `i` is appended to what was written before it exactly when no written record has its signature and fewer than the cap have its key; otherwise the output does not change |
| QuotaFilter.WrittenExactlyAdmitted | dedupe_and_cap_per_movie.py:104-120 | nothing is written before the first record, every record is decided by that rule against the records written before it, and the output is what has been written after the last record |
| Lines.Records | dedupe_and_cap_per_movie.py:92-100 | there are as many records as lines the parser accepts, and as many as lines exactly when every line is well formed |
| Lines.NumberedRecords | create_train_val.py:66-73 | each numbered record is the record its line parses to, and the line numbers strictly increase |
| Lines.NumberedRecordsComplete | create_train_val.py:66-73 | every line that carries a record is numbered |
| Lines.NumberingIsUnique | create_train_val.py:66-73 | any increasing numbering that pairs lines with their records and leaves none out is `NumberedRecords`: the three facts determine which records come and in what order |
| Lines.RecordsAreNumbered | dedupe_and_cap_per_movie.py:92-100 | record `j` of a file is the `j`-th numbered record: the records are exactly the accepted lines' objects, in file order |
| Lines.RecordsOfWellFormed | dedupe.py:16-17 | when every line carries a record, record `i` is what line `i` parses to |
| Text.PairSigIgnoresTail | dedupe.py:9-10 | two pairs whose inputs agree on their first `n` characters, and whose outputs do too, have the same signature text (`n` is 300 here, 400 in the newer script, 200 in the validator) |
| Text.PairSigSplitsAtLength | dedupe.py:9-10 | conversely, two pairs whose input prefixes have the same length have the same signature text only if both prefixes agree |
| Dedupe.MovieOf | dedupe.py:20-27 | the movie value is always truthy |
| Dedupe.UnparseableInputIsUnknown | dedupe.py:21-27 | an input that does not parse groups the record under `"UNKNOWN"` |
| Dedupe.TitleDecides | dedupe.py:25 | a truthy `movie_details.title` is the movie, whatever `movie` and `genre` hold |
| Dedupe.DedupeLines | dedupe.py:15-35 | raises exactly when a record whose movie is a list or an object passes the duplicate test, because `counts[movie]` cannot hash it; otherwise record `i` is written exactly when no record written before it has its signature and fewer than 1000 of them have its movie, the output is what has been written after the last record, every line is a record, the written records are an ordered subsequence, each line is written, a duplicate or capped, written signatures are distinct, and counters match the written records and stay within 1000 |
| Dedupe.RecordsAreLines | dedupe.py:16-17 | every line is parsed, and record `i` is line `i`'s object |
| Dedupe.UnhashableFirstMovieAborts | dedupe.py:28-31 | a first record whose movie is a list raises, since nothing has been seen before it |
| Dedupe.HashableMoviesNeverAbort | dedupe.py:28-35 | when no movie is a list or an object the loop never raises |
| QuotaFilter.RunChecked | dedupe.py:28-35 | the loop raises exactly when some record that cannot be counted arrives with a signature not yet seen; otherwise it computes the same tally as the loop without the check |
| Scenes.NextCut | scenes_split.py:16 | the next cut is the first position at or after `i` that starts a line beginning with `INT.` or `EXT.`, or the end of the text |
| Scenes.PiecesFrom | scenes_split.py:16 | the pieces concatenate back to the text; each is non-empty; every piece after the first starts with a heading, and the first does when the text does; every piece but the last ends with a newline; no piece contains a heading except at its start |
| Scenes.SplitScenes | scenes_split.py:14-18 | the scenes are taken in order from the stripped pieces, are non-empty and stripped, and number as many as the non-empty stripped pieces |
| Scenes.SplitScenesIsDetermined | scenes_split.py:14-18 | any list meeting those three facts is the split: the scenes are exactly the non-empty stripped pieces, in order |
| Scenes.StripKeepsHeading | scenes_split.py:18 | stripping a piece that starts with a heading keeps the heading at its front |
| Scenes.ScenesStartAtHeadings | scenes_split.py:14-18 | the unstripped pieces give back the script, and every scene except possibly the first begins with `INT.` or `EXT.` |
| Scenes.TitleOf | scenes_split.py:30 | the title is the longest `_`-free prefix of the file name without its extension |
| Scenes.TitleOfScriptFile | scenes_split.py:30 | `<title>.txt` and `<title>_<rest>.txt` both map to `<title>` |
| Scenes.DetailsFor | scenes_split.py:44-48 | the details hold exactly `genre`, `theme` and `tone`, with `"N/A"` for a missing column |
| Scenes.PairScenes | scenes_split.py:51-66 | `n` scenes give `max(0, n-1)` examples, all with the fixed instruction |
| Scenes.PairScenesRoundTrip | scenes_split.py:51-66 | example `i` continues scene `i` with scene `i+1`, and the scenes can be read back off the examples |
| Scenes.ExampleInputShape | scenes_split.py:44-66 | every example input holds exactly `movie_details` and `previous_scene`, and the details exactly genre, theme and tone |
| Scenes.PairScenesChains | scenes_split.py:44-66 | one example fewer than scenes; example `i` has scene `i` as previous scene and scene `i+1` as output, and carries the given details |
| Scenes.ScriptExamples | scenes_split.py:28-69 | a file whose title has no metadata row, or with fewer than two scenes, gives no example; otherwise one per consecutive scene pair, in order: example `i` continues scene `i` with scene `i+1` and carries the title's genre, theme and tone |
| Scenes.FileExamples | scenes_split.py:22 | a file whose name does not end in `.txt` contributes nothing |
| Scenes.Dataset | scenes_split.py:25-71 | every example of the output carries the fixed instruction |
| Scenes.DatasetAppend | scenes_split.py:28-71 | each file contributes independently and in listing order: the dataset of two listings is the concatenation of their datasets |
| Scenes.OnlyScriptFilesCount | scenes_split.py:22 | a listing without `.txt` files gives an empty dataset |
| ParagraphSplit.MatchAt | long_entries.py:45 | a match of `\n\s*\n+` starting at `i` is a separator (newline, whitespace, newline) that takes every newline of its whitespace run |
| ParagraphSplit.NoMatchNoBreak | long_entries.py:45 | a newline where no match starts is not followed by another newline across whitespace only |
| ParagraphSplit.MatchIsBreak | long_entries.py:45 | a match begins and ends with a newline, with only whitespace between |
| ParagraphSplit.SplitFrom | long_entries.py:45-48 | `re.split` from the leftmost match: pieces and separators interleave back to the text; separators are breaks; no piece contains a break; no piece after the first starts with whitespace holding a newline |
| ParagraphSplit.Split | long_entries.py:45-48 | the pieces and separators put together give the text, every separator is a blank-line break, and no piece contains one |
| ParagraphSplit.Paragraphs | long_entries.py:47-51 | the paragraphs are the stripped pieces that are non-empty and, for a non-zero `min_chars`, at least that long, in order |
| ParagraphSplit.NoBreakOnePiece | long_entries.py:45 | a text without a blank line is not split |
| ParagraphSplit.SingleParagraph | long_entries.py:47-51 | a text without a blank line gives one paragraph, its stripped self, when that is long enough, and none otherwise |
| LongEntries.Load | long_entries.py:53-57 | a line gives a record exactly when it parses to something other than `null` |
| LongEntries.TokenLength | long_entries.py:59-66 | the token count, or when the tokenizer raises, a quarter of the characters rounded down but at least 1 |
| LongEntries.TokenLengthZeroOnlyWhenEncoded | long_entries.py:59-66 | a length of 0 only comes from a successful encoding of no tokens |
| LongEntries.Budget | long_entries.py:70-72 | the output budget plus the input's tokens plus one separator is `max_tokens` |
| LongEntries.TruncateOutput | long_entries.py:68-85 | aborts exactly when encoding the input raises, or encoding the output raises under a usable budget; a budget of at most 20 keeps the first 1000 characters; an output within the budget is kept as is |
| LongEntries.TruncatedOutputFits | long_entries.py:68-85 | with a usable budget and a tokenizer whose decoded prefixes re-encode within their length, the result fits `max_tokens` unless decoding raised |
| LongEntries.TruncateIsIdempotent | long_entries.py:68-85 | truncating an already truncated output changes nothing |
| LongEntries.ChunkAt | long_entries.py:188-207 | a chunk holds exactly instruction, input and output; its output is paragraph `i`; its instruction is the record's; without `--make_prev_para` its input is the record's |
| LongEntries.Chunks | long_entries.py:185-209 | one chunk per paragraph, in paragraph order |
| LongEntries.WithOutput | long_entries.py:215-216 | a truncated record differs from the original only in its output |
| LongEntries.HandleRecord | long_entries.py:172-219 | raises exactly for an unprocessable record, or an over-budget one whose chunk prefix (`--make_prev_para` with a non-string input) or truncation raises; a record is kept unchanged exactly when it fits `max_tokens`; an over-budget record is chunked exactly when it has two or more paragraphs, one chunk per paragraph, and otherwise written once with only its output changed, to the truncated output |
| LongEntries.ChunksChainParagraphs | long_entries.py:194-207 | under `--make_prev_para` chunk `i`'s previous scene is paragraph `i-1` (or "" for the first), inside a JSON object input or as a text prefix |
| LongEntries.RewriteCounts | long_entries.py:161-219 | every line counts as processed, every malformed line as skipped, and every record writes at least one line |
| LongEntries.ShortRecordsPassThrough | long_entries.py:177-181 | a file whose records all fit is written back unchanged, record for record |
| LongEntries.Entries | long_entries.py:114-127 | heap entry `j` belongs to the `j`-th numbered record: its token length, its 1-based line number and that line |
| LongEntries.EntriesCount | long_entries.py:114-127 | there is one heap entry per record |
| LongEntries.EntryOfRecord | long_entries.py:136-139 | the line of heap entry `j` parses back to record `j` |
| LongEntries.RewriteHandlesRecords | long_entries.py:161-219 | the second pass writes, in order, the concatenation of what `HandleRecord` writes for each record, and raises exactly when `HandleRecord` raises on some record; blank and malformed lines write nothing |
| LongEntries.FirstPassFacts | long_entries.py:111-133 | the heap holds at most `max(0, topk)` entries, and for a positive `topk` exactly `min(topk, records)` of the entries with no entry left out longer than one kept |
| LongEntries.SecondPassFacts | long_entries.py:161-219 | the second pass's counters hold and its output is the concatenation of `HandleRecord`'s outputs |
| LongEntries.AbortCauses | long_entries.py:111-219 | the first pass raises exactly when there is a record and `topk <= 0`; the second pass raises exactly when `HandleRecord` raises on some record |
| LongEntries.LongEntries | long_entries.py:111-219 | the run raises exactly when a record cannot be measured, when there is a record and `topk <= 0`, when the report cannot preview a kept record, or when `HandleRecord` raises on some record; after a run that completes: every record is processable; the heap holds `min(topk, records)` entries, and no record left out of it has more tokens than one kept; no kept entry's input or output is present but not a string (the report would have raised); the second pass's counters hold; the output is, in order, what `HandleRecord` writes for each record |
| LongEntries.PreviewCrashAborts | long_entries.py:135-151 | when the heap has room for every record, one record whose input or output is present but not a string (`{"input": "x", "output": null}`) makes the run raise in the report, before the output file is opened |
| TopK.MinPos | long_entries.py:132 | `topk[0]` is a least element in tuple order |
| TopK.Remove | long_entries.py:133 | removing the minimum keeps every other element |
| TopK.OfferKeepsInv | long_entries.py:128-133 | one offer keeps the heap size at `min(topk, n)` and keeps every let-go entry at or below every kept entry |
| TopK.ScanInvariant | long_entries.py:111-133 | with `topk >= 1` the scan never raises and the invariant holds after every record |
| TopK.KeepsLargest | long_entries.py:111-133 | the heap ends with `min(topk, n)` of the entries, and no entry left out has more tokens than one kept |
| TopK.TieNotAdmitted | long_entries.py:132 | with the heap full, an entry that only ties the minimum is not admitted |
| TopK.NoRoomAborts | long_entries.py:129-133 | with `topk <= 0` the first entry makes the scan raise |
| TopK.ScanBound | long_entries.py:128-133 | the heap never holds more than `topk` entries |
| TrainVal.ValSize | create_train_val.py:57 | the validation size is between 1 and the line count, and is 5% of the lines rounded down when that is at least 1 |
| TrainVal.ValIndices | create_train_val.py:54-58 | the validation set holds exactly `v` distinct line numbers, all in range |
| TrainVal.Mark | create_train_val.py:75 | the marked output ends with the stop marker; what precedes it is a prefix of the output, only whitespace is removed after it, and its last character, if any, is not whitespace |
| TrainVal.MarkTwice | create_train_val.py:74-75 | marking twice leaves two markers, contrary to the comment |
| TrainVal.MarkRecord | create_train_val.py:75 | only the output changes, and it is marked |
| Lines.NumberedAll | create_train_val.py:66-73 | when every line is a record there is one per line, numbered by its position |
| TrainVal.Distribute | create_train_val.py:66-82 | every record is written once, to one of the files, marked |
| TrainVal.DistributeIsPartition | create_train_val.py:77-82 | the validation file holds, in order, the marked records whose line number is in the validation set, and the training file all the others |
| TrainVal.CountMembers | create_train_val.py:58 | counting the records in the validation set counts the set's members below the record count |
| TrainVal.SplitRecords | create_train_val.py:54-82 | the validation file is, in file order, the marked records whose line number is in the validation set, and the training file the marked records whose line number is not; every record is written once, marked |
| TrainVal.ListSourceFileRaises | create_train_val.py:33-42 | a record with a non-empty list under `source_file` makes the first pass raise |
| TrainVal.CreateTrainVal | create_train_val.py:24-82 | the run aborts exactly for an empty file, a record that is not an object or has a non-string output, or a record whose `found_key` is a truthy list or object (`meta_counter.update` cannot hash it); otherwise the validation file is, in file order, the marked records whose line number is among the first `v` shuffled numbers, and the training file the marked remaining records |
| TrainVal.AllRecordsSplitExactly | create_train_val.py:57-82 | when every line is a record, the validation file gets exactly `v` records and the training file the rest |
| Backfill.Index | backfill.py:19-25 | the search texts are the files' texts lower-cased, in listing order |
| Backfill.FirstContaining | backfill.py:32-34 | the first file, in listing order, whose text contains the candidate, or none |
| Backfill.FindFile | backfill.py:29-40 | an exact (lower-cased) match returns the first matching file; only without one is the fuzzy matcher asked, with the first 50 characters |
| Backfill.FuzzyOnlyAsFallback | backfill.py:29-40 | when some file contains the candidate, the fuzzy matcher has no effect on the result |
| Backfill.LowerKeepsOccurrence | backfill.py:30-33 | an occurrence equal up to case survives lower-casing |
| Backfill.FindsIgnoringCase | backfill.py:25-34 | a file holding the candidate in any mix of cases is found, or an earlier one is |
| Backfill.InjectSource | backfill.py:42-57 | aborts exactly when the input is present and not a string; otherwise sets `source_file` to the file and changes no field but `source_file` and `input`; an input that is not JSON becomes the title prefix `{"movie_title":"<stem>", "previous_scene":""}` followed by the old input |
| Backfill.MissingInputGetsPrefix | backfill.py:47-56 | a missing input is read as "", which does not parse, so it becomes the bare title prefix |
| Backfill.ExistingTitleKept | backfill.py:46-50 | an input with a truthy `movie_title`, or JSON that is not an object, is never touched |
| Backfill.MissingTitleFilledFromFileName | backfill.py:48-53 | an object input without a title gets the file's stem as `movie_title`, read back intact when the codec round-trips |
| Backfill.InjectObjectIdempotent | backfill.py:42-57 | injecting the same file twice into an object input changes nothing the first injection did not |
| Backfill.SourceOf | backfill.py:67-75 | a blank output is never searched; otherwise the record has a source exactly when searching the stripped output cut to `--substr_len` characters gives a non-empty name, and that name is the source |
| Backfill.StepWrites | backfill.py:63-80 | one record raises exactly when it is not an object with a missing or string output, or it has a source and an input that is neither missing nor a string; otherwise it writes one record, as `inject_source` leaves it when it has a source and unchanged when not, and adds one to `found` or `not_found` accordingly |
| Backfill.WrittenIsAttributed | backfill.py:75-76 | a record written with a source has `source_file` set to that file and no field changed but `source_file` and `input` |
| Backfill.RunAbortsIff | backfill.py:59-80 | the loop raises exactly when some record raises on its own |
| Backfill.RunKeepsInv | backfill.py:59-80 | after every prefix: one written record per record, in order, each written as `inject_source` leaves it or unchanged; `found` counts the records with a source and `not_found` the others |
| Backfill.BackfillFile | backfill.py:59-80 | raises exactly when some parsed record raises on its own; otherwise every parsed line is written exactly once, in order, unchanged when no file is found and as `inject_source` leaves it with the file found otherwise; `found` counts the records with a source and `not_found` the rest, a blank output among them, written unchanged |
| Validate.EmptyOutputIsBlankText | validate_jsonl_dataset.py:35-36 | an output counts as empty exactly when it strips to nothing once read as text |
| Validate.Sig | validate_jsonl_dataset.py:41 | the signature is at most 402 characters and begins with the input's first 200 |
| Validate.SigIgnoresTail | validate_jsonl_dataset.py:41 | records agreeing on the first 200 characters of input and output share a signature |
| Validate.RepeatsPlusValues | validate_jsonl_dataset.py:41-45 | every signature is either the first of its value or a repeat |
| Validate.NoRepeatsIffDistinct | validate_jsonl_dataset.py:41-45 | no signature repeats exactly when all are pairwise distinct |
| Validate.StepDescribes | validate_jsonl_dataset.py:29-57 | one record keeps every counter equal to its definition over the records read so far |
| Validate.RunDescribes | validate_jsonl_dataset.py:20-57 | after the loop: `count` is the record count, `missing_keys` and `empty_outputs` count their records, `duplicates` is the set of signatures, `dupe_count` the repeats, and the samples are the first five records |
| Validate.ValidateFile | validate_jsonl_dataset.py:19-70 | aborts exactly when `json.loads` raises past the `except` on some non-blank line, some record is not an object with text-or-falsy input and output, or one of the first five records lacks a string input or output for the sample preview; otherwise the report describes the records |
| Validate.SamplesArePrefix | validate_jsonl_dataset.py:56-70 | the kept samples can be printed exactly when the first five records can |
| Validate.MissingInputIsMissingKey | validate_jsonl_dataset.py:30-34 | an object without an input is counted as missing a key |
| Validate.SampleWithoutInputAborts | validate_jsonl_dataset.py:30-70 | a first record without an input is counted as missing a key, yet makes the sample preview raise |
| Validate.TextRecordsValidate | validate_jsonl_dataset.py:19-70 | with no fatal line and every record carrying string input and output, the run completes |
| Validate.ReportCounts | validate_jsonl_dataset.py:21-45 | `count` is the number of non-blank lines that parse; `dupe_count + len(duplicates) == count`; no duplicate is reported exactly when all signatures differ |

## Left out

- File and directory I/O, `argparse`, progress bars and every `print`: the model takes the files' lines and the directory listing as values and returns the written records and counters.
- `script.py`, `veo_script.py` and `hf_upload.py` (network and SDK calls), and `token_length_check.py` (an external tokenizer plus float percentiles), are not part of this model.
- SHA-256, the tokenizer, `difflib`, `random.shuffle`, `json.loads`/`json.dumps` and `str()` are oracles; the regular expressions are modelled directly, not through a regex engine.
- `long_entries.py`'s sorted top-K report (lines 135-151) is console output. The model keeps only its crash on a kept record whose input or output is present but not a string; the sort and the printed text are not modelled.
- `create_train_val.py`'s first-pass metadata probing (lines 31-44) only feeds printed counters. The model keeps only its crashes: on a record that is not an object, and on a truthy list or object key.
- `validate_jsonl_dataset.py`'s character-length lists, medians, means and genre counter are console statistics and are not modelled. Of the sample printing, only its crash is modelled.
- Validate.ValidateFile: a crash in the sample preview comes after the counters are printed; the model returns `Aborted` and does not keep those printed counters. Which lines make `json.loads` raise something other than `JSONDecodeError` is the oracle `fatal`.
- `backfill.py` prints `i` at the end, which raises `NameError` for an empty file after all output is written; console only.
- A crash leaves a partly written output file; the model returns `Aborted` or states the crash-free input as a precondition and says nothing about the partial file.
- Text.Lower: ASCII letters only, where Python's `str.lower` also folds other Unicode letters.
- JSON numbers are integers; floats are not modelled.
- TrainVal.ValSize: computes `total / 20` for `int(total * 0.05)`. The double nearest 0.05 is slightly above 1/20, so the two agree for every line count below 2^48.
- DedupeCap.DedupeAndCap: the crash on a record that is not an object, or whose input or output is present but not a string, is a precondition, not an outcome.
- Dedupe.DedupeLines: a line that does not parse, or a record that is not an object or whose input or output is present but not a string, is a precondition, not an outcome.
- Dedupe.DedupeLines: movie keys are JSON values compared structurally. A Python `Counter` merges keys that compare equal, so `1` and `True` share one quota at dedupe.py:31, while the model keeps `JInt(1)` and `JBool(true)` apart.
- Strings are sequences of Unicode scalar values, so the model cannot hold a lone surrogate. In Python a `\ud800` escape in a JSON line gives one, and then `.encode("utf-8")` raises `UnicodeEncodeError`. That happens in the signatures (dedupe.py:10, dedupe_and_cap_per_movie.py:26) and in every UTF-8 write. These crashes are not modelled.
- Scenes.Dataset: the metadata table is a map from title to row. `pandas` details are not modelled: missing cells read as `NaN`, and duplicate titles make `to_dict` raise.
- Scenes.Pieces: `re.split` yields an empty first piece when the script starts with a heading; the model omits it because the scene filter drops it anyway.
- LongEntries.TruncatedOutputFits: when decoding raises, the character fallback (`output[:max(1000, 2 * allowed)]`) is not shown to fit the budget; the script does not promise it.
- LongEntries.HandleRecord: does not model the JSON serialisation of the written records; they are values.
