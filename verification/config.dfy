/**
 The parts of a run's settings that the output builders read: where the
 output goes and which objectives were optimised.
 */
module Config {
  import opened Paths

  /** An output location: a directory and a base file name stem. */
  datatype OutputLocation = OutputLocation(path: string, name: string)

  /** One optimisation criterion: its display name and the module that
      defines it. */
  datatype Objective = Objective(name: string, moduleName: string)

  /** The settings of one process (the main one or a subprocess). */
  datatype Settings = Settings(output: OutputLocation, objectives: seq<Objective>)

  /** The artifact `<path>/<name><suffix>` of an output location. Its last
      component is the stem plus the suffix whenever neither holds a
      separator, and a relative artifact name lands directly inside the
      directory: the directory, at most one separator, then the name. */
  function ArtifactPath(loc: OutputLocation, suffix: string): (r: string)
    ensures Sep !in loc.name + suffix ==> Basename(r) == loc.name + suffix
    ensures |loc.name + suffix| <= |r| && r[|r| - |loc.name + suffix|..] == loc.name + suffix
    ensures (|loc.name + suffix| == 0 || (loc.name + suffix)[0] != Sep) ==>
              |loc.path| <= |r| && r[..|loc.path|] == loc.path
    ensures (|loc.name + suffix| == 0 || (loc.name + suffix)[0] != Sep) ==>
              |r| == |loc.path| + JoinGap(loc.path) + |loc.name + suffix|
    ensures (|loc.name + suffix| == 0 || (loc.name + suffix)[0] != Sep) && JoinGap(loc.path) == 1 ==>
              r[|loc.path|] == Sep
  {
    var file := loc.name + suffix;
    if Sep in file then Join(loc.path, file)
    else BasenameOfJoin(loc.path, file); Join(loc.path, file)
  }
}
