# repo_analyzer: file selection, transcript, chunking and report assembly

repo_analyzer walks a repository and keeps the files its name rules admit.
It writes a header and the first 1000 characters of each one into a transcript.
The web application (app.py) then cuts the transcript into 1000-character
chunks and sends each chunk to a completion service, discarding the answers.
The separate script send_to_gpt.py cuts the transcript into 4000-character
chunks, sends each chunk to the service and writes each answer as a numbered
block in a response file.

This project models the sequential logic of that pipeline in Dafny:

- `FileFilter` covers `should_include_file` and the configured pattern sets
  (app.py).
- `Chunker` covers `chunk_text`, which appears in both app.py and send_to_gpt.py.
- `Transcript` covers `analyze_repo_files` (app.py). The walk runs over a
  directory-tree value in place of `os.walk`, and each file carries the outcome
  of reading it.
- `ChunkReport` covers the chunk loop of `send_to_gpt` (send_to_gpt.py). Each
  completion call is given as its outcome, either returned text or a failure.
- `DataManager` covers the class `AnalysisData` (data_manager.py) with its two
  map fields.
- `Utils` covers `format_filename` (utils.py).
- `Strings` holds the Python string built-ins these modules use: `endswith`,
  `startswith`, `split('*')[0]`, slicing, `strip` and integer rendering. It
  also holds `Concat`, a reference function joining a list of strings end to
  end, in which the chunk round trip is stated.

The model follows the code in these details:

- The excerpt cap is 1000 characters, not bytes.
- A chunk size of 0 or less raises nothing of its own. Python's `range` raises
  for 0 and gives no chunks for a negative size. The model therefore requires a
  positive size.
- A failed completion call in `send_to_gpt` writes no block to the response
  file. No error result is recorded for it.
- Exclude patterns such as `*.log` are compared literally, not as globs. So
  `debug.log` and `main.pyc` are both included under the configured sets
  (`FileFilter.LogPatternIsLiteral`, `FileFilter.ConfiguredExamples`).
- The comment at utils.py:6 says `format_filename` replaces spaces with
  underscores. The code at utils.py:7 keeps the space in its admitted class,
  so only the spaces at either end are removed (by `strip()`) and inner spaces
  stay. `Utils.FormatFilenameStrips` shows it: `" a b "` becomes `"a b"`.

## Model

| member | source | states |
|---|---|---|
| `Strings.BeforeFirstStar` | app.py:40 | `pattern.split('*')[0]` is a prefix of the pattern that holds no `*`, and it stops at the first `*` when there is one. |
| `Strings.Strip` | send_to_gpt.py:38 | `strip()` cuts the leading white space (the characters `str.isspace` accepts) and then the trailing white space. The result neither starts nor ends with white space. |
| `Strings.StripDropsOnlySpace` | send_to_gpt.py:38 | What `strip()` keeps is one slice of the input, and every character it drops before or after that slice is white space. |
| `Strings.Decimal` | send_to_gpt.py:39 | `{i + 1}` renders as decimal digits without a leading zero, and reading those digits back gives the number. |
| `FileFilter.ShouldIncludeFile` | app.py:35-42 | The two early-return loops return true exactly when no exclude pattern is a suffix of or equal to the name and some include pattern is a suffix of it or has its text before the first `*` as a prefix of it. This holds whatever order the sets are visited in. |
| `FileFilter.ExcludeWins` | app.py:36-38 | A name matched by an exclude pattern is rejected, whatever the include patterns are. |
| `FileFilter.DefaultReject` | app.py:39-42 | A name that no include pattern matches is rejected. |
| `FileFilter.ExcludedBySuffixOnly` | app.py:37 | An exclude pattern matches exactly the names it is a suffix of. The equality test adds nothing. |
| `FileFilter.ConfiguredIncludesAllNotExcluded` | app.py:20-41 | Under the configured sets, a name is included if and only if no exclude pattern is a suffix of it. `'*.py'` has an empty prefix, so it admits every name. |
| `FileFilter.LogPatternIsLiteral` | app.py:20-41 | `'*.log'` does not exclude `debug.log`, and under the configured sets `debug.log` is included. |
| `FileFilter.ConfiguredExamples` | app.py:20-41 | `main.pyc` escapes `'*.pyc'` and is included. `.env` is excluded. |
| `FileFilter.TranscriptFileAdmitted` | app.py:20-41 | `repo_transcript.txt`, the transcript's own file name, is admitted under the configured sets. |
| `Chunker.ChunkText` | app.py:63-64 | `chunk_text` (also send_to_gpt.py:10-12) gives no chunks exactly for the empty text, and no chunk is longer than the chunk size. |
| `Chunker.ChunksConcat` | app.py:63-64 | For a positive size, the chunks joined in order give back the text exactly. |
| `Chunker.ChunkLengths` | app.py:63-64 | There are ceil(\|text\| / size) chunks, and none for the empty text. Every chunk but the last has exactly `size` characters. The last is non-empty and at most `size` long. |
| `Chunker.ChunkIsSlice` | app.py:64 | Chunk `k` is the slice of the text from `k * size` to `k * size + size`, clamped to the text's end, and it starts inside the text. |
| `Transcript.Excerpt` | app.py:56-57 | `content[:1000]` is a prefix of the content of length min(\|content\|, 1000). |
| `Transcript.JoinPath` | app.py:51 | `os.path.join(root, file_name)` begins with the root and ends with the file name, with at most one separator added between them. |
| `Transcript.Header` | app.py:55 | The header carries the file name between a fixed 12-character opening and a fixed 6-character closing. |
| `Transcript.Prune` | app.py:48 | The kept subdirectories are exactly those whose name is not in the excluded set. |
| `Transcript.PruneKeepsOrder` | app.py:48 | The comprehension keeps listing order: the kept subdirectories sit at strictly increasing positions of the listing, and those positions are exactly the ones whose name is not excluded. |
| `Transcript.Walked` | app.py:47-48 | Every file the pruned top-down walk reaches from a directory lies under that directory, and no directory between them has an excluded name. |
| `Transcript.AnalyzeRepoFiles` | app.py:44-61 | The queue holds one record (path, name, excerpt) for each admitted, readable file reached by the pruned top-down walk, in walk order. The transcript is those records' header-plus-excerpt blocks, in the same order. |
| `Transcript.WalkDir` | app.py:47-61 | One directory of the walk extends the queue with the records of its own files, then those of its kept subdirectories. The transcript stays the rendering of the queue. |
| `Transcript.AddFiles` | app.py:49-61 | The loop over one directory's files appends a record and its block for each admitted, readable file. It skips the others and goes on. |
| `Transcript.AddFile` | app.py:50-61 | For one file, records its header and excerpt when it is admitted and its read succeeds. Otherwise it leaves the transcript and queue unchanged. |
| `Transcript.WalkSubdirs` | app.py:47-48 | The kept subdirectories are walked in listing order, each fully before the next. |
| `Transcript.RecordsExact` | app.py:50-58 | Every record comes from an admitted, readable file, carries its path, name and first 1000 characters, and has an excerpt of at most 1000 characters. Every such file has its record. |
| `Transcript.SkippedFileContributesNothing` | app.py:52-61 | A file that is not admitted, or whose read fails, adds nothing. The records after it are as if it were absent. |
| `Transcript.WalkIsVisibleTree` | app.py:47-48 | The pruned walk reaches exactly the files of the whole tree that lie under no excluded subdirectory, in the same order. The root itself is never pruned. |
| `Transcript.WalkSkipsExcluded` | app.py:48 | No file reached by the walk lies below a subdirectory with an excluded name, at any depth. |
| `Transcript.ExampleRepository` | app.py:44-61 | For `a.py` (1500 characters) beside `node_modules/b.py`, the walk queues one record for `a.py` with its first 1000 characters. The transcript is `"\n\n--- File: a.py ---\n\n"` followed by that excerpt. |
| `ChunkReport.SendToGpt` | send_to_gpt.py:14-42 | One prompt per 4000-character chunk. The output is one block per successful call, in chunk order, numbered out of the chunk count. An empty transcript sends nothing and writes nothing. |
| `ChunkReport.AnalyzeChunks` | send_to_gpt.py:28-42 | The `enumerate(chunks)` loop builds the prompt from each chunk. It appends a stripped, numbered block for each successful call, and nothing for a failed one. |
| `ChunkReport.ResponseBlock` | send_to_gpt.py:39 | The block for chunk `i` opens with two newlines, `--- Response for chunk `, the 1-based number `i + 1` and ` of `. It ends with the result and a newline. |
| `ChunkReport.AnalyzeChunk` | send_to_gpt.py:29-42 | For one chunk: the prompt embeds the chunk. A successful call appends `"\n\n--- Response for chunk " + (i+1) + " of " + total + " ---\n\n" + strip(result) + "\n"`. A failed call appends nothing. |
| `ChunkReport.PromptsAt` | send_to_gpt.py:28-29 | There is one prompt per chunk, and prompt `i` embeds chunk `i`. |
| `ChunkReport.RenderStep` | send_to_gpt.py:30-42 | One more chunk appends its block when its call succeeds and leaves the output unchanged when it fails. |
| `ChunkReport.ResponsesSound` | send_to_gpt.py:28-39 | Each written response comes from a successful call for an existing chunk and carries that call's content. |
| `ChunkReport.ResponsesComplete` | send_to_gpt.py:28-39 | Each successful call has its response written. |
| `ChunkReport.ResponsesOrdered` | send_to_gpt.py:28-39 | The blocks appear in strictly increasing chunk order. |
| `ChunkReport.FailureDropsOnlyItsBlock` | send_to_gpt.py:30-42 | Turning chunk `k`'s call into a failure removes exactly that chunk's block. Every other block, its number and the total stay the same. |
| `ChunkReport.TranscriptChunks` | send_to_gpt.py:10-23 | With size 4000, the chunks join back to the transcript and all but the last are 4000 long. There are no chunks exactly when the transcript is empty. |
| `DataManager.AnalysisData.constructor` | data_manager.py:4-7 | A new store has empty `transcripts` and `gpt_responses`. |
| `DataManager.AnalysisData.AddTranscript` | data_manager.py:9-11 | Sets or overwrites the one transcript entry, after which `get_transcript` returns the new content. Other transcript keys and all responses are unchanged. |
| `DataManager.AnalysisData.AddGptResponse` | data_manager.py:13-15 | Sets or overwrites the one response entry, after which `get_gpt_response` returns the new response. Other response keys and all transcripts are unchanged. |
| `DataManager.AnalysisData.GetTranscript` | data_manager.py:17-19 | Returns the stored transcript, or `""` for a name never added. |
| `DataManager.AnalysisData.GetGptResponse` | data_manager.py:21-23 | Returns the stored response, or `""` for a name never added. |
| `DataManager.GetOrEmpty` | data_manager.py:19 | `dict.get(key, "")`: the entry if present, otherwise the empty string. |
| `DataManager.RunCalls` | data_manager.py:9-15 | Making a run of `add_*` calls on a fresh store leaves it holding the tables `Replay` describes. |
| `DataManager.LastWriteWins` | data_manager.py:9-23 | After any run of calls, each getter returns the value of the last add of its kind for that name, or `""` if there was none. |
| `DataManager.TablesIndependent` | data_manager.py:9-15 | Calls of only one kind leave the other table empty. |
| `Utils.Replace` | utils.py:7 | An admitted character is kept and any other becomes `_`. The result is always admitted. |
| `Utils.Sanitize` | utils.py:7 | The substitution keeps the length. Each position keeps its admitted character or holds `_`. |
| `Utils.FormatFilename` | utils.py:4-7 | The result contains only word characters, `-`, `_`, `.` and space. It is no longer than the input and has no space at either end. |
| `Utils.FormatFilenameWindow` | utils.py:7 | The result is a contiguous window of the substituted name, so position `j` comes from input position `a + j`. Only spaces were cut on either side. |
| `Utils.SanitizeFixed` | utils.py:7 | A string of admitted characters is unchanged by the substitution. |
| `Utils.FormatFilenameFixed` | utils.py:7 | A name of admitted characters with no space at either end is returned unchanged. |
| `Utils.FormatFilenameIdempotent` | utils.py:4-7 | Formatting an already formatted name changes nothing. |
| `Utils.FormatFilenameReplaces` | utils.py:7 | `a/b:c.txt` becomes `a_b_c.txt`. |
| `Utils.FormatFilenameStrips` | utils.py:7 | `" a b "` becomes `"a b"`. |

## Left out

- Calls to the completion service (app.py:73-77, app.py:117-121, send_to_gpt.py:31-38) are network calls. Their outcomes are inputs, one per chunk, and the model, temperature and token limit are not modelled.
- File system access is not modelled: `os.walk`, `open`, the transcript and response files, `tqdm`, `load_dotenv` and reading the transcript back. The tree is a value whose child order is the listing order as given. The files' contents are returned strings.
- The `progress` status set when a read fails (app.py:60-61) and the printed messages are not modelled. They do not affect the transcript, the queue or the response file.
- The Flask routes, templates and the start of the background thread (app.py:84-94, app.py:126-127) are not modelled. flask_app.py is not part of this model.
- `analyze_repository` (app.py:96-124) is not modelled as a whole. It runs `analyze_repo_files`, reads the transcript back, cuts it into 1000-character chunks with `chunk_text`, and sends each chunk to the completion service. It only updates the `progress` status and discards every result. Its parts that are modelled are `Transcript.AnalyzeRepoFiles` and `Chunker.ChunkText`, which covers any positive chunk size, 1000 included.
- `Transcript.AnalyzeRepoFiles`: the transcript's own path is not modelled. Its only caller puts the transcript inside the repository root (`os.path.join(repo_path, 'repo_transcript.txt')`, app.py:100). It opens the file for writing (app.py:46) before the walk lists the root (app.py:47). So in a real run the root's files include `repo_transcript.txt`, which `FileFilter.TranscriptFileAdmitted` shows is admitted. Reading it gives whatever part of the transcript has been flushed so far. To model such a run, the tree must list that file in the root, with that partial content as its read outcome. `Transcript.ExampleRepository` assumes the transcript lies outside the tree.
- `Transcript.JoinPath`: joins with the POSIX separator `/`. On Windows, where the configured `.env` paths (app.py:13, send_to_gpt.py:7) suggest the program runs, `os.path.join` puts `\` between root and name. The records' `path` fields then differ in that character, and `Transcript.ExampleRepository`'s `repo/a.py` would read `repo\a.py`.
- app.py's `send_to_gpt(file_queue, result_queue)` (app.py:66-82) is not modelled. Nothing calls it, and the `file_queue` that `analyze_repository` creates (app.py:98) is never read, so the queued records are discarded in the source.
- `Chunker.ChunkText`: its behaviour for a chunk size of zero or less (Python raises or returns `[]`) is not modelled. Its callers require a positive size.
- `Utils.IsWordChar`: Python's `\w` also admits non-ASCII letters and digits. The model takes only ASCII letters, digits and `_`, so a non-ASCII word character is replaced by `_` here but kept by the source.
- `DataManager.AnalysisData.constructor`: the `repo_path = os.getcwd()` field (data_manager.py:5) is left out. `os` is not imported in that file, so the line raises.
