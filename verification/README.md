# pgaudi output builders, modelled in Dafny

pgaudi runs a GAUDI optimisation across several subprocesses. When the run
ends, the main process writes two global artifacts. This project models how
they are built, in `pgaudi/create_output.py`.

- **The merged log** (`merge_log`). Every subprocess leaves a log at
  `<path>/<name>.gaudi-log`. The merge opens the main log
  `<path>/<name>.gaudi-log` for writing and writes the header
  `"Merged log files\n################\n\n"`. Then, for each subprocess in
  dispatch order, it writes the log's base name followed by `":\n***\n"`,
  the log's lines as `readlines()` returns them, and a newline.
- **The results document** (`generate_out`). This is a mapping with exactly
  two keys. `"GAUDI.objectives"` lists `"<name> (<module>)"` for each
  objective, in configuration order. `"GAUDI.results"` maps
  `"<individual name>.zip"` to that individual's scores, and a later
  individual with the same name overwrites an earlier one. The document is
  written to `<path>/<name>.gaudi-output` after the header line
  `"# Generated by GAUDI v<version> on <timestamp>\n\n"`.

Files:

- `files.dfy` (module `Files`): the file system as a map from path to text,
  the missing-file error, and the truncating write.
- `paths.dfy` (module `Paths`): POSIX `join` of two components and `basename`.
- `text.dfy` (module `Text`): concatenation, and the line split of `readlines()`.
- `config.dfy` (module `Config`): output locations, objectives and settings
  records, and the `<path>/<name><suffix>` artifact path.
- `log_merger.dfy` (module `LogMerger`): the merged log.
  - `MergeInto` is the declarative reference.
  - `WriteMerged` and `MergeLog` follow the source's loops and are proved to
    equal that reference.
- `result_aggregator.dfy` (module `ResultAggregator`): the results document
  and the header.

The file system is a `map<string, string>`. Opening with `"w"` or `"w+"`
truncates the target at once. All text written reaches the file when it is
closed, including when a read error ends the block early. The source logs are
read after the target has been truncated. So if a subprocess log is the
target itself, it is read as empty.

Further choices that follow `create_output.py` closely:

- The subprocess logs and the merged log end in `.gaudi-log`. The results
  file ends in `.gaudi-output`.
- The two document keys are `GAUDI.objectives` and `GAUDI.results`.
- The merged log is written piece by piece. A missing subprocess log ends
  the merge with `NotFound` for that log. The target keeps the header, the
  sections of the logs before it, and that log's marker.
- Duplicate individual names are not rejected. The last one wins.

## Model

| member | source | states |
|---|---|---|
| Files.Write | pgaudi/create_output.py:31 | Opening a path for writing replaces that entry (or creates it) with exactly the written text. Every other entry keeps its content. |
| Files.WriteOverwrites | pgaudi/create_output.py:67 | A second write to the same path discards the first completely: writing truncates and never appends. |
| Paths.Join | pgaudi/create_output.py:27 | The joined path ends with the file name. An absolute file name replaces the directory. Otherwise the path is the directory, then one separator exactly when the directory is non-empty and does not already end with one, then the file name: its length is fixed, so nothing else lies between them. |
| Paths.LastSep | pgaudi/create_output.py:35 | Returns the index of the last separator, or -1: the index holds a separator and nothing after it does. |
| Paths.BasenameShape | pgaudi/create_output.py:35 | The base name has no separator, ends the path, and is either the whole path or preceded by a separator. |
| Paths.BasenameOfJoin | pgaudi/create_output.py:26-35 | The base name of `join(dir, file)` is `file` when `file` has no separator, whatever `dir` is. |
| Config.ArtifactPath | pgaudi/create_output.py:27 | `<path>/<name><suffix>` has base name `name + suffix` when neither has a separator. It ends with `name + suffix`. When that name is relative, the artifact is the directory, at most one separator, then `name + suffix`, so it lies directly in the directory. |
| Text.LineEnd | pgaudi/create_output.py:38 | The first line runs to the first newline, inclusive, or to the end of the text. It is non-empty and has no earlier newline. |
| Text.Lines | pgaudi/create_output.py:38-39 | Concatenating the lines that `readlines()` yields gives back the file's text exactly. Each line is non-empty and has a newline only as its last character. Every line except the last ends with a newline. |
| Text.ConcatAppend | pgaudi/create_output.py:38-39 | Writing two lists of pieces one after the other writes the concatenation of both lists. |
| LogMerger.LogPath | pgaudi/create_output.py:26-30 | The log path `join(path, name + ".gaudi-log")` has base name `name.gaudi-log` when the stem has no separator, and it ends with `name.gaudi-log`. For a relative stem it is the output directory, at most one separator, then `name.gaudi-log`, so it lies directly in that directory. |
| LogMerger.MarkerNamesLog | pgaudi/create_output.py:26-35 | The marker of subprocess i is `name_i + ".gaudi-log:\n***\n"` when its stem has no separator. |
| LogMerger.SectionsAppend | pgaudi/create_output.py:34-41 | The sections of two source lists written one after the other equal the sections of the joined list. Sources are neither reordered nor merged. |
| LogMerger.MergedEmpty | pgaudi/create_output.py:32-34 | With no subprocess, the merged log is exactly the header. |
| LogMerger.MergedInOrder | pgaudi/create_output.py:34-41 | For every source i, the merged text is the merged text of sources 0..i-1, then section i (base name, `":\n***\n"`, content, `"\n"`), then the sections of the later sources. No source is reordered or dropped. |
| LogMerger.MergedLength | pgaudi/create_output.py:32-41 | The merged length is 35, plus the sum over sources of base-name length + 6 + content length + 1. |
| LogMerger.SourcesOf | pgaudi/create_output.py:34-39 | Reads one source per path, in order. Each source carries the path's base name and the file's text. |
| LogMerger.FirstMissing | pgaudi/create_output.py:37 | Returns the first path that is not in the file system. All earlier paths are present. |
| LogMerger.MergedSnoc | pgaudi/create_output.py:34-41 | One more source extends the merged text by exactly its section. |
| LogMerger.MergeFrame | pgaudi/create_output.py:31-37 | The merge creates or replaces only the target entry. Subprocess logs are only read and stay as they were. |
| LogMerger.CopyLines | pgaudi/create_output.py:37-39 | Copying a file line by line appends its text verbatim to the text already written. |
| LogMerger.WriteMerged | pgaudi/create_output.py:31-41 | The source's write loop gives exactly the reference result. If all logs are present, the merge succeeds and the target holds the header and every section in order. Otherwise it fails with `NotFound` for the first missing log, and the target holds the earlier sections plus that log's marker. |
| LogMerger.MergeLog | pgaudi/create_output.py:15-41 | Derives the subprocess logs and the target `<path>/<name>.gaudi-log`, then merges as above. |
| LogMerger.MergeRerun | pgaudi/create_output.py:31 | Merging a second time with the same inputs yields the same file system and outcome. The old merged log is overwritten, not appended to. |
| LogMerger.MergeReadsSources | pgaudi/create_output.py:31-41 | When the target is none of the logs and all logs exist, the merge succeeds. The target then holds the header and the sections of the logs' original contents. |
| ResultAggregator.OutputPath | pgaudi/create_output.py:66 | The output path `join(path, name + ".gaudi-output")` has base name `name.gaudi-output` when the stem has no separator, and it ends with `name.gaudi-output`. For a relative stem it is the output directory, at most one separator, then `name.gaudi-output`, so it lies directly in that directory. |
| ResultAggregator.ObjectiveLabels | pgaudi/create_output.py:58-60 | There is one label per objective, in objective order. Label i is `name_i + " (" + module_i + ")"`. |
| ResultAggregator.ResultKeyInjective | pgaudi/create_output.py:64 | Two individuals get the same `"<name>.zip"` key exactly when their names are equal. |
| ResultAggregator.ResultsKeys | pgaudi/create_output.py:62-65 | The key set of the results table is exactly `{ind.name + ".zip"}` over the population. An empty population gives an empty table. |
| ResultAggregator.ResultsLastWins | pgaudi/create_output.py:63-65 | Each key holds the scores of the last individual with that name, so duplicates silently overwrite earlier ones. |
| ResultAggregator.ResultsStep | pgaudi/create_output.py:63-65 | Storing one more individual adds an entry exactly when no earlier individual has its name. Otherwise the entry count is unchanged. |
| ResultAggregator.ResultsSize | pgaudi/create_output.py:63-65 | The table has at most one entry per individual. It has exactly one per individual if and only if all names are distinct. |
| ResultAggregator.ResultsKeepShape | pgaudi/create_output.py:63-65 | If every individual has one score per objective, so does every table entry. |
| ResultAggregator.Generate | pgaudi/create_output.py:57-65 | The document has exactly the two keys `GAUDI.objectives` and `GAUDI.results`. The first holds the objective labels in order. The second holds the table, with the key set and last-write-wins values above. |
| ResultAggregator.EmptyPopulation | pgaudi/create_output.py:57-65 | With an empty population, the document still has both keys, and `GAUDI.results` is empty. |
| ResultAggregator.HeaderLines | pgaudi/create_output.py:68-72 | When neither the version nor the timestamp contains a newline, the header reads back as exactly two lines. The first is a `#` comment starting `"# Generated by GAUDI v"` with the version after the `v` and the timestamp at its end. The second is an empty line. |
| ResultAggregator.GenerateOut | pgaudi/create_output.py:44-73 | The source's loop builds exactly the reference document. The output file `<path>/<name>.gaudi-output` then holds only the header followed by the serialised document, whatever it held before. All other files are unchanged. |

## Left out

- YAML serialisation (`yaml.safe_dump`, line 73) is a library call. The model takes it as a parameter `dump: Document -> string` and says nothing about the text it produces.
- The tool version (`gaudi.__version__`) and the clock (`strftime`) are ambient state. They are string parameters, and the timestamp's `%Y-%m-%d %H:%M:%S` shape is not checked.
- Conversion of scores to floating point (`map(float, ...)`) is not modelled, because floating point is out of scope. Scores are kept as given, as `seq<real>`. On Python 3 this `map` call returns a lazy iterator rather than a list. That difference belongs to the serialiser, so it is outside this model.
- Some file-system errors are not modelled: a target that cannot be created (missing directory, no permission) and read errors other than a missing file. The file system holds only files, not directories.
- Buffer flushes in the middle of the merge are not modelled. All text written to an open file is assumed to reach it when the file closes. This is why a log that is also the target is read as empty.
- Text-mode decoding and newline translation are not modelled. Each file's content is its text as a text-mode read returns it.
- `os.path.join` is modelled for exactly two string components. `basename` is modelled with `/` as the only separator.
- Like the source, the model does not check that each individual has one score per objective. Scores of any length are stored as given. `ResultAggregator.ResultsKeepShape` states what holds when the lengths do match.
- The settings and population objects are reduced to the fields the two functions read: output path and name, objectives, and individual name and score.
