/**
 The merged log of an optimisation run: the header "Merged log files",
 then, for every subprocess in dispatch order, a marker naming its log
 file, that log's text verbatim and a blank line. The target log is opened
 for writing, and so emptied, before anything is read, and the text is written
 piece by piece, so a missing source log ends the merge with what was
 written so far left in the target.
 */
module LogMerger {
  import opened Files
  import opened Paths
  import opened Text
  import opened Config

  const LogSuffix := ".gaudi-log"
  const MergeHeader := "Merged log files\n################\n\n"
  const MarkerTail := ":\n***\n"

  /** One source log as it appears in the merged text: the last component
      of its path and its contents. */
  datatype Source = Source(basename: string, content: string)

  /** The log file `<path>/<name>.gaudi-log` of an output location. When the
      stem holds no separator the file's last component is the stem plus
      the suffix. A relative stem puts the file directly inside the output
      directory: the directory, at most one separator, then the file name. */
  function LogPath(loc: OutputLocation): (r: string)
    ensures Sep !in loc.name ==> Basename(r) == loc.name + LogSuffix
    ensures |loc.name + LogSuffix| <= |r| && r[|r| - |loc.name + LogSuffix|..] == loc.name + LogSuffix
    ensures loc.name == [] || loc.name[0] != Sep ==> |loc.path| <= |r| && r[..|loc.path|] == loc.path
    ensures loc.name == [] || loc.name[0] != Sep ==> |r| == |loc.path| + JoinGap(loc.path) + |loc.name| + |LogSuffix|
    ensures (loc.name == [] || loc.name[0] != Sep) && JoinGap(loc.path) == 1 ==> r[|loc.path|] == Sep
  {
    assert Sep !in LogSuffix;
    ArtifactPath(loc, LogSuffix)
  }

  /** The log file of every subprocess, in dispatch order. */
  function LogPaths(pcfgs: seq<Settings>): seq<string>
  {
    seq(|pcfgs|, i requires 0 <= i < |pcfgs| => LogPath(pcfgs[i].output))
  }

  /** The marker line that introduces the section of the log at `path`. */
  function Marker(path: string): string
  {
    Basename(path) + MarkerTail
  }

  /** The section one source log contributes to the merged text. */
  function Section(src: Source): string
  {
    src.basename + MarkerTail + src.content + "\n"
  }

  /** The sections of `srcs`, in order. */
  function Sections(srcs: seq<Source>): string
  {
    if |srcs| == 0 then "" else Section(srcs[0]) + Sections(srcs[1..])
  }

  /** The complete merged log of `srcs`. */
  function MergedText(srcs: seq<Source>): string
  {
    MergeHeader + Sections(srcs)
  }

  /** The sections of two lists of sources, one after the other. */
  lemma {:induction false} SectionsAppend(a: seq<Source>, b: seq<Source>)
    ensures Sections(a + b) == Sections(a) + Sections(b)
  {
    if |a| == 0 {
      assert a + b == b;
    } else {
      assert (a + b)[1..] == a[1..] + b;
      SectionsAppend(a[1..], b);
    }
  }

  /** With no subprocess the merged log is the header alone. */
  lemma MergedEmpty()
    ensures MergedText([]) == "Merged log files\n################\n\n"
  {
  }

  /** Every source has its section, in input order and none dropped: the
      merged text is the merged text of the sources before `i`, then the
      section of source `i`, then the sections of the sources after it. */
  lemma MergedInOrder(srcs: seq<Source>, i: nat)
    requires i < |srcs|
    ensures MergedText(srcs) == MergedText(srcs[..i]) + Section(srcs[i]) + Sections(srcs[i + 1..])
  {
    assert srcs == srcs[..i] + ([srcs[i]] + srcs[i + 1..]);
    SectionsAppend(srcs[..i], [srcs[i]] + srcs[i + 1..]);
    assert ([srcs[i]] + srcs[i + 1..])[1..] == srcs[i + 1..];
  }

  /** Sum over the sources of basename length, 6 for ":\n***\n", the
      content length and 1 for the closing newline. */
  function SectionsLength(srcs: seq<Source>): nat
  {
    if |srcs| == 0 then 0
    else |srcs[0].basename| + 6 + |srcs[0].content| + 1 + SectionsLength(srcs[1..])
  }

  /** The merged log is 35 header characters plus the sections' lengths:
      no source is dropped, repeated or shortened. */
  lemma {:induction false} MergedLength(srcs: seq<Source>)
    ensures |MergedText(srcs)| == 35 + SectionsLength(srcs)
  {
    if |srcs| > 0 {
      MergedLength(srcs[1..]);
    }
  }

  /** Every path of `paths` is present in `fs`. */
  predicate AllPresent(fs: FileSystem, paths: seq<string>)
  {
    forall i :: 0 <= i < |paths| ==> paths[i] in fs
  }

  /** The sources read from `fs` at `paths`: one per path, in order, each
      carrying the path's last component and the file's text. */
  function SourcesOf(fs: FileSystem, paths: seq<string>): (srcs: seq<Source>)
    requires AllPresent(fs, paths)
    ensures |srcs| == |paths|
    ensures forall i :: 0 <= i < |paths| ==> srcs[i] == Source(Basename(paths[i]), fs[paths[i]])
  {
    if |paths| == 0 then []
    else [Source(Basename(paths[0]), fs[paths[0]])] + SourcesOf(fs, paths[1..])
  }

  /** The first path of `paths` that `fs` lacks: all before it are present. */
  function FirstMissing(fs: FileSystem, paths: seq<string>): (k: nat)
    requires !AllPresent(fs, paths)
    ensures k < |paths| && paths[k] !in fs
    ensures AllPresent(fs, paths[..k])
  {
    if paths[0] !in fs then 0 else 1 + FirstMissing(fs, paths[1..])
  }

  /** Reading one more present log appends its source. */
  lemma SourcesSnoc(fs: FileSystem, paths: seq<string>, i: nat)
    requires i < |paths| && AllPresent(fs, paths[..i]) && paths[i] in fs
    ensures AllPresent(fs, paths[..i + 1])
    ensures SourcesOf(fs, paths[..i + 1]) == SourcesOf(fs, paths[..i]) + [Source(Basename(paths[i]), fs[paths[i]])]
  {
    assert paths[..i + 1][i] == paths[i];
    assert paths[..i + 1][..i] == paths[..i];
  }

  /** One more source extends the merged text by its section. */
  lemma MergedSnoc(srcs: seq<Source>, src: Source)
    ensures MergedText(srcs + [src]) == MergedText(srcs) + Section(src)
  {
    SectionsAppend(srcs, [src]);
    assert Sections([src]) == Section(src) + Sections([]);
  }

  /** A log missing right after a run of present ones is the first missing. */
  lemma FirstMissingAt(fs: FileSystem, paths: seq<string>, i: nat)
    requires i < |paths| && AllPresent(fs, paths[..i]) && paths[i] !in fs
    ensures !AllPresent(fs, paths) && FirstMissing(fs, paths) == i
  {
    var k := FirstMissing(fs, paths);
    forall j | 0 <= j < i
      ensures paths[j] in fs
    {
      assert paths[..i][j] == paths[j];
    }
    forall j | 0 <= j < k
      ensures paths[j] in fs
    {
      assert paths[..k][j] == paths[j];
    }
  }

  /** Merging the logs at `paths` into `target`, as a new file system and an
      outcome. The target is truncated first and the logs are read from the
      truncated file system. When every log is present the merge succeeds
      and the target holds the merged text of all of them. Otherwise the
      merge fails on the first missing log, and the target keeps what was
      written before the failure: the merged text of the logs before it
      followed by that log's marker. */
  function MergeInto(fs: FileSystem, paths: seq<string>, target: string): (FileSystem, Status)
  {
    var fs0 := Write(fs, target, "");
    if AllPresent(fs0, paths) then
      (Write(fs0, target, MergedText(SourcesOf(fs0, paths))), Done)
    else
      var k := FirstMissing(fs0, paths);
      (Write(fs0, target, MergedText(SourcesOf(fs0, paths[..k])) + Marker(paths[k])), Failed(NotFound(paths[k])))
  }

  /** The merge changes the target entry (creating it if needed) and no
      other entry: the logs it reads are left as they were. */
  lemma MergeFrame(fs: FileSystem, paths: seq<string>, target: string)
    ensures var r := MergeInto(fs, paths, target).0;
            && r.Keys == fs.Keys + {target}
            && forall p :: p in fs && p != target ==> r[p] == fs[p]
  {
  }

  /** The merge of the subprocess logs of `pcfgs` into the log of `cfg`. */
  function Merge(fs: FileSystem, pcfgs: seq<Settings>, cfg: Settings): (FileSystem, Status)
  {
    MergeInto(fs, LogPaths(pcfgs), LogPath(cfg.output))
  }

  /** The merge as `merge_log` performs it: derive the subprocess logs and
      the target log, then write the merged log. */
  method MergeLog(fs: FileSystem, pcfgs: seq<Settings>, cfg: Settings) returns (fs': FileSystem, status: Status)
    ensures (fs', status) == Merge(fs, pcfgs, cfg)
  {
    var logFiles := LogPaths(pcfgs);
    var target := LogPath(cfg.output);
    fs', status := WriteMerged(fs, logFiles, target);
  }

  /** The writing loop of the merge: open the target for writing, write the
      header, and for each log write its marker, then its lines as
      `readlines()` yields them, then a newline. It produces exactly the
      file system and outcome `MergeInto` describes. */
  method WriteMerged(fs: FileSystem, logFiles: seq<string>, target: string) returns (fs': FileSystem, status: Status)
    ensures (fs', status) == MergeInto(fs, logFiles, target)
  {
    var truncated := Write(fs, target, "");
    var text := MergeHeader;
    var i := 0;
    while i < |logFiles|
      invariant 0 <= i <= |logFiles|
      invariant AllPresent(truncated, logFiles[..i])
      invariant text == MergedText(SourcesOf(truncated, logFiles[..i]))
    {
      var logf := logFiles[i];
      ghost var before := text;
      text := text + Marker(logf);
      if logf !in truncated {
        FirstMissingAt(truncated, logFiles, i);
        fs' := Write(truncated, target, text);
        status := Failed(NotFound(logf));
        return;
      }
      text := CopyLines(text, truncated[logf]);
      text := text + "\n";
      SectionWritten(before, logf, truncated[logf]);
      SourcesSnoc(truncated, logFiles, i);
      MergedSnoc(SourcesOf(truncated, logFiles[..i]), Source(Basename(logf), truncated[logf]));
      i := i + 1;
    }
    assert logFiles[..i] == logFiles;
    fs' := Write(truncated, target, text);
    status := Done;
  }

  /** Writing a log's marker, its contents and a newline after `prefix`
      writes that log's section. */
  lemma SectionWritten(prefix: string, path: string, content: string)
    ensures prefix + Marker(path) + content + "\n" == prefix + Section(Source(Basename(path), content))
  {
    var name := Basename(path);
    var tail := MarkerTail;
    var newline := "\n";
    assert prefix + (name + tail) + content + newline == prefix + (name + tail + content + newline);
  }

  /** Copying a file line by line, as `readlines()` yields the lines, onto
      the text written so far appends the file's contents verbatim. */
  method CopyLines(written: string, content: string) returns (r: string)
    ensures r == written + content
  {
    var lines := Lines(content);
    r := written;
    var j := 0;
    while j < |lines|
      invariant 0 <= j <= |lines|
      invariant r == written + Concat(lines[..j])
    {
      ConcatSnoc(lines, j);
      r := r + lines[j];
      j := j + 1;
    }
    assert lines[..|lines|] == lines;
  }

  /** Merging again with the same inputs gives the same file system and
      outcome: the earlier merged log is overwritten, never appended to. */
  lemma MergeRerun(fs: FileSystem, paths: seq<string>, target: string)
    ensures MergeInto(MergeInto(fs, paths, target).0, paths, target) == MergeInto(fs, paths, target)
  {
    var fs0 := Write(fs, target, "");
    var once := MergeInto(fs, paths, target).0;
    WriteOverwrites(fs0, target, once[target], "");
    WriteOverwrites(fs, target, "", "");
  }

  /** When the target is not one of the logs and all logs are present, the
      merge succeeds and the target holds the merged text of the logs'
      original contents. */
  lemma MergeReadsSources(fs: FileSystem, paths: seq<string>, target: string)
    requires target !in paths
    requires AllPresent(fs, paths)
    ensures MergeInto(fs, paths, target).1 == Done
    ensures MergeInto(fs, paths, target).0[target] == MergedText(SourcesOf(fs, paths))
  {
    var fs0 := Write(fs, target, "");
    assert AllPresent(fs0, paths);
    assert SourcesOf(fs0, paths) == SourcesOf(fs, paths);
  }

  /** The marker of subprocess `i` names its log as `<name>.gaudi-log`
      whenever its stem holds no separator. */
  lemma MarkerNamesLog(pcfgs: seq<Settings>, i: nat)
    requires i < |pcfgs| && Sep !in pcfgs[i].output.name
    ensures Marker(LogPaths(pcfgs)[i]) == pcfgs[i].output.name + ".gaudi-log:\n***\n"
  {
  }
}
