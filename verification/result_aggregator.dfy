/**
 The results document of an optimisation run: a mapping with two keys,
 "GAUDI.objectives" holding one "<name> (<module>)" label per objective in
 configuration order, and "GAUDI.results" mapping "<individual name>.zip"
 to that individual's scores. It is written, after a generated-by header
 line, to `<path>/<name>.gaudi-output`, replacing any earlier file.
 */
module ResultAggregator {
  import opened Files
  import opened Paths
  import opened Text
  import opened Config

  const OutputSuffix := ".gaudi-output"
  const ObjectivesKey := "GAUDI.objectives"
  const ResultsKey := "GAUDI.results"
  const ZipSuffix := ".zip"
  const HeaderLead := "# Generated by GAUDI v"

  /** A member of the final population: its name and one score per
      objective (scores are kept as given; their conversion to floating
      point is not modelled). */
  datatype Individual = Individual(name: string, score: seq<real>)

  /** A value of the results document: a list of labels or a score table. */
  datatype Entry = Labels(items: seq<string>) | Scores(table: map<string, seq<real>>)

  /** The results document before serialisation. */
  type Document = map<string, Entry>

  /** The results file `<path>/<name>.gaudi-output` of an output location;
      its last component is the stem plus the suffix when the stem holds no
      separator. A relative stem puts the file directly inside the output
      directory: the directory, at most one separator, then the file name. */
  function OutputPath(loc: OutputLocation): (r: string)
    ensures Sep !in loc.name ==> Basename(r) == loc.name + OutputSuffix
    ensures |loc.name + OutputSuffix| <= |r| && r[|r| - |loc.name + OutputSuffix|..] == loc.name + OutputSuffix
    ensures loc.name == [] || loc.name[0] != Sep ==> |loc.path| <= |r| && r[..|loc.path|] == loc.path
    ensures loc.name == [] || loc.name[0] != Sep ==> |r| == |loc.path| + JoinGap(loc.path) + |loc.name| + |OutputSuffix|
    ensures (loc.name == [] || loc.name[0] != Sep) && JoinGap(loc.path) == 1 ==> r[|loc.path|] == Sep
  {
    assert Sep !in OutputSuffix;
    ArtifactPath(loc, OutputSuffix)
  }

  /** The label of an objective: "<name> (<module>)". */
  function Label(o: Objective): string
  {
    o.name + " (" + o.moduleName + ")"
  }

  /** The objective labels: as many as objectives, in the same order. */
  function ObjectiveLabels(objs: seq<Objective>): (r: seq<string>)
    ensures |r| == |objs|
    ensures forall i :: 0 <= i < |objs| ==> r[i] == Label(objs[i])
  {
    if |objs| == 0 then [] else [Label(objs[0])] + ObjectiveLabels(objs[1..])
  }

  /** The key an individual's scores are stored under. */
  function ResultKey(ind: Individual): string
  {
    ind.name + ZipSuffix
  }

  /** Two individuals share a key exactly when they share a name. */
  lemma ResultKeyInjective(a: Individual, b: Individual)
    ensures ResultKey(a) == ResultKey(b) <==> a.name == b.name
  {
    if ResultKey(a) == ResultKey(b) {
      assert |a.name| == |b.name|;
      assert a.name == ResultKey(a)[..|a.name|];
    }
  }

  /** No later member of `pop` has the name of the member at `i`. */
  predicate LastOfName(pop: seq<Individual>, i: nat)
    requires i < |pop|
  {
    forall j :: i < j < |pop| ==> pop[j].name != pop[i].name
  }

  /** The score table built by storing each individual's scores under its
      key in turn, so that a later individual overwrites an earlier one of
      the same name. */
  function Results(pop: seq<Individual>): map<string, seq<real>>
  {
    if |pop| == 0 then map[]
    else
      var last := pop[|pop| - 1];
      Results(pop[..|pop| - 1])[ResultKey(last) := last.score]
  }

  /** The table's keys are exactly the keys of the individuals: none is
      dropped and none is invented. */
  lemma {:induction false} ResultsKeys(pop: seq<Individual>)
    ensures Results(pop).Keys == set i | 0 <= i < |pop| :: ResultKey(pop[i])
  {
    if |pop| > 0 {
      var n := |pop| - 1;
      var prior := pop[..n];
      ResultsKeys(prior);
      assert forall i :: 0 <= i < n ==> prior[i] == pop[i];
      var keys := set i | 0 <= i < |pop| :: ResultKey(pop[i]);
      var priorKeys := set i | 0 <= i < n :: ResultKey(prior[i]);
      assert keys == priorKeys + {ResultKey(pop[n])};
    }
  }

  /** Last write wins: the key of the last individual with a given name
      holds that individual's scores. */
  lemma {:induction false} ResultsLastWins(pop: seq<Individual>, i: nat)
    requires i < |pop| && LastOfName(pop, i)
    ensures ResultKey(pop[i]) in Results(pop)
    ensures Results(pop)[ResultKey(pop[i])] == pop[i].score
  {
    var n := |pop| - 1;
    if i < n {
      var prior := pop[..n];
      assert prior[i] == pop[i];
      assert LastOfName(prior, i);
      ResultsLastWins(prior, i);
      ResultKeyInjective(pop[i], pop[n]);
    }
  }

  /** No two members of `pop` share a name. */
  predicate DistinctNames(pop: seq<Individual>)
  {
    forall i, j :: 0 <= i < j < |pop| ==> pop[i].name != pop[j].name
  }

  /** Storing one more individual adds an entry exactly when no earlier
      individual has its name. */
  lemma ResultsStep(pop: seq<Individual>)
    requires |pop| > 0
    ensures var n := |pop| - 1;
            (exists i :: 0 <= i < n && pop[i].name == pop[n].name) <==> |Results(pop)| == |Results(pop[..n])|
    ensures var n := |pop| - 1;
            |Results(pop)| == |Results(pop[..n])| || |Results(pop)| == |Results(pop[..n])| + 1
  {
    var n := |pop| - 1;
    var last := pop[n];
    var prior := pop[..n];
    var before := Results(prior);
    var key := ResultKey(last);
    ResultsKeys(prior);
    assert Results(pop) == before[key := last.score];
    if key in before {
      var i :| 0 <= i < n && ResultKey(prior[i]) == key;
      ResultKeyInjective(prior[i], last);
      assert pop[i].name == pop[n].name;
    } else {
      forall i | 0 <= i < n
        ensures pop[i].name != last.name
      {
        assert prior[i] == pop[i];
        assert ResultKey(prior[i]) in before;
        ResultKeyInjective(prior[i], last);
      }
    }
  }

  /** The table never has more entries than the population, and has as
      many exactly when no two individuals share a name: a duplicate name
      always loses an entry. */
  lemma {:induction false} ResultsSize(pop: seq<Individual>)
    ensures |Results(pop)| <= |pop|
    ensures |Results(pop)| == |pop| <==> DistinctNames(pop)
  {
    if |pop| > 0 {
      var n := |pop| - 1;
      var prior := pop[..n];
      ResultsSize(prior);
      ResultsStep(pop);
      assert forall i :: 0 <= i < n ==> prior[i] == pop[i];
      assert DistinctNames(pop) <==>
             DistinctNames(prior) && forall i :: 0 <= i < n ==> pop[i].name != pop[n].name;
    }
  }

  /** Every stored score sequence is one of the individuals' scores, so if
      every individual has one score per objective, so does every entry. */
  lemma {:induction false} ResultsKeepShape(objs: seq<Objective>, pop: seq<Individual>)
    requires forall i :: 0 <= i < |pop| ==> |pop[i].score| == |objs|
    ensures forall k :: k in Results(pop) ==> |Results(pop)[k]| == |objs|
  {
    if |pop| > 0 {
      ResultsKeepShape(objs, pop[..|pop| - 1]);
    }
  }

  /** The results document: exactly the two keys, the objective labels in
      configuration order, and the score table of the population. */
  function Generate(objs: seq<Objective>, pop: seq<Individual>): (doc: Document)
    ensures doc.Keys == {ObjectivesKey, ResultsKey}
    ensures doc[ObjectivesKey].Labels? && |doc[ObjectivesKey].items| == |objs|
    ensures forall i :: 0 <= i < |objs| ==> doc[ObjectivesKey].items[i] == Label(objs[i])
    ensures doc[ResultsKey].Scores?
    ensures doc[ResultsKey].table.Keys == set i | 0 <= i < |pop| :: ResultKey(pop[i])
    ensures forall i :: 0 <= i < |pop| && LastOfName(pop, i) ==> doc[ResultsKey].table[ResultKey(pop[i])] == pop[i].score
  {
    ResultsKeys(pop);
    forall i | 0 <= i < |pop| && LastOfName(pop, i)
      ensures Results(pop)[ResultKey(pop[i])] == pop[i].score
    {
      ResultsLastWins(pop, i);
    }
    map[ObjectivesKey := Labels(ObjectiveLabels(objs)), ResultsKey := Scores(Results(pop))]
  }

  /** An empty population still gives both keys, with an empty table. */
  lemma EmptyPopulation(objs: seq<Objective>)
    ensures Generate(objs, []).Keys == {ObjectivesKey, ResultsKey}
    ensures Generate(objs, [])[ResultsKey] == Scores(map[])
  {
  }

  /** The generated-by line and the blank line that open the file. */
  function Header(version: string, timestamp: string): string
  {
    HeaderLead + version + " on " + timestamp + "\n\n"
  }

  /** When neither the version nor the timestamp holds a newline, the
      header reads back as exactly two lines: a comment line starting with
      "#" that carries the version after "v" and the timestamp at its end,
      then an empty line. */
  lemma HeaderLines(version: string, timestamp: string)
    requires Newline !in version && Newline !in timestamp
    ensures var h := Header(version, timestamp);
            var ls := Lines(h);
            && |ls| == 2
            && ls[1] == [Newline]
            && ls[0][0] == '#'
            && ls[0][..|HeaderLead|] == HeaderLead
            && ls[0][|HeaderLead|..|HeaderLead| + |version|] == version
            && ls[0][|ls[0]| - |timestamp| - 1..|ls[0]| - 1] == timestamp
  {
    var h := Header(version, timestamp);
    var line := HeaderLead + version + " on " + timestamp + "\n";
    assert h == line + "\n";
    assert forall j :: 0 <= j < |line| - 1 ==> line[j] != Newline by {
      forall j | 0 <= j < |line| - 1
        ensures line[j] != Newline
      {
        if j < |HeaderLead| {
          assert line[j] == HeaderLead[j];
        } else if j < |HeaderLead| + |version| {
          assert line[j] == version[j - |HeaderLead|];
        } else if j < |HeaderLead| + |version| + 4 {
          assert line[j] == " on "[j - |HeaderLead| - |version|];
        } else {
          assert line[j] == timestamp[j - |HeaderLead| - |version| - 4];
        }
      }
    }
    var k := |line|;
    assert forall j :: 0 <= j < k - 1 ==> h[j] == line[j];
    assert h[k - 1] == Newline;
    LineEndAtNewline(h, k);
    assert h[..k] == line;
    var blank := h[k..];
    assert blank == [Newline];
    assert LineEnd(blank) == 1;
    assert blank[..1] == blank && blank[1..] == [];
    assert Lines(blank) == [blank] + Lines([]);
  }

  /** The results output as `generate_out` performs it: build the labels and,
      individual by individual, the score table; then replace the results
      file with the header followed by the serialised document. The
      serialiser is a parameter. */
  method GenerateOut(fs: FileSystem, population: seq<Individual>, cfg: Settings,
                     version: string, timestamp: string, dump: Document -> string)
    returns (fs': FileSystem, doc: Document)
    ensures doc == Generate(cfg.objectives, population)
    ensures var out := OutputPath(cfg.output);
            && fs'.Keys == fs.Keys + {out}
            && fs'[out] == Header(version, timestamp) + dump(doc)
            && forall p :: p in fs && p != out ==> fs'[p] == fs[p]
  {
    var table: map<string, seq<real>> := map[];
    var i := 0;
    while i < |population|
      invariant 0 <= i <= |population|
      invariant table == Results(population[..i])
    {
      assert population[..i + 1][..i] == population[..i];
      table := table[ResultKey(population[i]) := population[i].score];
      i := i + 1;
    }
    assert population[..i] == population;
    doc := map[ObjectivesKey := Labels(ObjectiveLabels(cfg.objectives)), ResultsKey := Scores(table)];
    fs' := Write(fs, OutputPath(cfg.output), Header(version, timestamp) + dump(doc));
  }
}
