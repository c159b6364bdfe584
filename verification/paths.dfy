/**
 The two POSIX path operations the output builders use: joining a
 directory and a file name, and taking the last component of a path.
 */
module Paths {

  const Sep := '/'

  /** The number of separators `Join` puts between a non-empty directory
      and a relative file name: none when `dir` is empty or already ends
      with one, one otherwise. */
  function JoinGap(dir: string): nat
  {
    if |dir| == 0 || dir[|dir| - 1] == Sep then 0 else 1
  }

  /** Joins `dir` and `file` as POSIX `join` does for two components: an
      absolute `file` replaces `dir`; otherwise a separator is inserted
      unless `dir` is empty or already ends with one. */
  function Join(dir: string, file: string): (r: string)
    ensures |file| <= |r| && r[|r| - |file|..] == file
    ensures |file| > 0 && file[0] == Sep ==> r == file
    ensures (|file| == 0 || file[0] != Sep) ==> |dir| <= |r| && r[..|dir|] == dir
    ensures (|file| == 0 || file[0] != Sep) && |dir| > 0 ==> |file| < |r| && r[|r| - |file| - 1] == Sep
    ensures (|file| == 0 || file[0] != Sep) ==> |r| == |dir| + JoinGap(dir) + |file|
  {
    if |file| > 0 && file[0] == Sep then file
    else if |dir| == 0 || dir[|dir| - 1] == Sep then dir + file
    else dir + [Sep] + file
  }

  /** Index of the last separator in `p`, or -1 when there is none. */
  function LastSep(p: string): (r: int)
    ensures -1 <= r < |p|
    ensures r >= 0 ==> p[r] == Sep
    ensures forall j :: r < j < |p| ==> p[j] != Sep
  {
    if |p| == 0 then -1
    else if p[|p| - 1] == Sep then |p| - 1
    else LastSep(p[..|p| - 1])
  }

  /** The last component of `p`: everything after its last separator. */
  function Basename(p: string): string
  {
    p[LastSep(p) + 1..]
  }

  /** The last component holds no separator, ends `p`, and is all of `p`
      or follows a separator in it. */
  lemma BasenameShape(p: string)
    ensures Sep !in Basename(p)
    ensures |Basename(p)| <= |p| && p[|p| - |Basename(p)|..] == Basename(p)
    ensures |Basename(p)| < |p| ==> p[|p| - |Basename(p)| - 1] == Sep
  {
    var i := LastSep(p) + 1;
    assert forall j :: 0 <= j < |p| - i ==> Basename(p)[j] == p[i + j];
  }

  /** A name without separators appended to a directory prefix (empty, or
      ending in a separator) is recovered by `Basename`. */
  lemma BasenameAfterSep(prefix: string, name: string)
    requires Sep !in name
    requires |prefix| == 0 || prefix[|prefix| - 1] == Sep
    ensures Basename(prefix + name) == name
  {
    var p := prefix + name;
    assert forall j :: |prefix| <= j < |p| ==> p[j] == name[j - |prefix|];
    if |prefix| > 0 {
      assert p[|prefix| - 1] == Sep;
    }
    assert LastSep(p) == |prefix| - 1;
  }

  /** The last component of a joined path is the file name that was joined,
      provided that name holds no separator. */
  lemma BasenameOfJoin(dir: string, file: string)
    requires Sep !in file
    ensures Basename(Join(dir, file)) == file
  {
    if |dir| == 0 || dir[|dir| - 1] == Sep {
      BasenameAfterSep(dir, file);
    } else {
      assert dir + [Sep] + file == (dir + [Sep]) + file;
      BasenameAfterSep(dir + [Sep], file);
    }
  }
}
