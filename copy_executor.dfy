/**
  The copy executor, `copy_files`: route every file the walker yields to
  `dest_root/<mapped>/<day>/<hour>/<file>` and copy it there, unless it has no
  mapping, or skip-existing is on and the destination is already present, or
  the run is a dry run.
*/
module CopyExecutor {
  import opened Wrappers
  import opened MappingLoader
  import opened PatternMatcher
  import opened SourceWalker

  /** A file-system path as the sequence of its components. */
  type Path = seq<string>

  /**
    The destination file system. Each file present is mapped to the source
    path its content was copied from; for a file that was there before the
    run, that is whatever it was.
  */
  class DestFs {
    var files: map<Path, Path>

    constructor (initial: map<Path, Path>)
      ensures files == initial
    {
      files := initial;
    }

    /** `dest_file.exists()`. */
    predicate Exists(p: Path)
      reads this
    {
      p in files
    }

    /**
      `dest_dir.mkdir(parents=True, exist_ok=True)` then
      `shutil.copy2(src, dst)`: afterwards `dst` holds the content of `src`,
      replacing any earlier content.
    */
    method Copy(src: Path, dst: Path)
      modifies this
      ensures files == old(files)[dst := src]
    {
      files := files[dst := src];
    }
  }

  /** The arguments of `copy_files`. */
  datatype Config = Config(sourceRoot: Path, destRoot: Path, mapping: Mapping, dryRun: bool, skipExisting: bool)

  /** Where a yielded file is read from: `source_root/<top>/SHORT/<day>/<hour>/<file>`. */
  function SourcePath(cfg: Config, f: SourceFile): Path {
    cfg.sourceRoot + [f.top, ShortName, f.day, f.hour, f.file]
  }

  /** `dest_root / mapped / day / hour / file`. */
  function DestPath(cfg: Config, mapped: string, f: SourceFile): Path {
    cfg.destRoot + [mapped, f.day, f.hour, f.file]
  }

  /**
    The destination folder a file is routed to. `if not mapped_level1` skips
    both a failed lookup and an empty destination name.
  */
  function Route(cfg: Config, f: SourceFile): (r: Option<string>)
    ensures r.Some? ==> r.value != "" && r == Match(f.top, cfg.mapping)
    ensures r.None? <==> Match(f.top, cfg.mapping) in {None, Some("")}
  {
    match Match(f.top, cfg.mapping)
    case Some(mapped) => if mapped == "" then None else Some(mapped)
    case None => None
  }

  /** The running counter and the destination file system. */
  datatype Outcome = Outcome(copied: nat, files: map<Path, Path>)

  /**
    What handling one file does. An unrouted file, a dry run and a skipped
    file change nothing; otherwise the count goes up by one and the
    destination path now holds the source file's content.
  */
  function Step(cfg: Config, o: Outcome, f: SourceFile): (r: Outcome)
    ensures Route(cfg, f).None? || cfg.dryRun ==> r == o
    ensures r == o || (Route(cfg, f).Some? &&
                       r == Outcome(o.copied + 1, o.files[DestPath(cfg, Route(cfg, f).value, f) := SourcePath(cfg, f)]))
    ensures cfg.skipExisting && r != o ==> DestPath(cfg, Route(cfg, f).value, f) !in o.files
  {
    match Route(cfg, f)
    case None => o
    case Some(mapped) =>
      var dest := DestPath(cfg, mapped, f);
      if cfg.skipExisting && dest in o.files then o
      else if cfg.dryRun then o
      else Outcome(o.copied + 1, o.files[dest := SourcePath(cfg, f)])
  }

  /** What handling the files in order does. */
  function Run(cfg: Config, o: Outcome, fs: seq<SourceFile>): Outcome {
    if fs == [] then o else Step(cfg, Run(cfg, o, fs[..|fs| - 1]), fs[|fs| - 1])
  }

  /**
    `copy_files`: the files under the source root, walked as
    `iter_source_files` does, each handled in turn. The result is the number
    of files copied.
  */
  method CopyFiles(dest: DestFs, tree: seq<Node>, cfg: Config) returns (copiedCount: nat)
    modifies dest
    ensures Outcome(copiedCount, dest.files) == Run(cfg, Outcome(0, old(dest.files)), SourceFiles(tree))
  {
    copiedCount := 0;
    var sources := SourceFiles(tree);
    ghost var start := Outcome(0, dest.files);
    for i := 0 to |sources|
      invariant Outcome(copiedCount, dest.files) == Run(cfg, start, sources[..i])
    {
      var f := sources[i];
      RunSnoc(cfg, start, sources, i);
      ghost var before := Outcome(copiedCount, dest.files);
      var mappedLevel1 := MatchMapping(f.top, cfg.mapping);
      if mappedLevel1.None? || mappedLevel1.value == "" {
        assert Step(cfg, before, f) == before;
        continue;
      }
      assert Route(cfg, f) == mappedLevel1;
      var destFile := DestPath(cfg, mappedLevel1.value, f);
      if cfg.skipExisting && dest.Exists(destFile) {
        assert Step(cfg, before, f) == before;
        continue;
      }
      if !cfg.dryRun {
        dest.Copy(SourcePath(cfg, f), destFile);
        copiedCount := copiedCount + 1;
        assert Step(cfg, before, f) == Outcome(copiedCount, dest.files);
      } else {
        assert Step(cfg, before, f) == before;
      }
    }
    assert sources[..|sources|] == sources;
  }

  /** Handling one more file is one more step. */
  lemma RunSnoc(cfg: Config, o: Outcome, fs: seq<SourceFile>, i: nat)
    requires i < |fs|
    ensures Run(cfg, o, fs[..i + 1]) == Step(cfg, Run(cfg, o, fs[..i]), fs[i])
  {
    assert fs[..i + 1][..i] == fs[..i];
  }

  /**
    Two files land on the same destination path only when they are routed to
    the same folder and share day, hour and file name.
  */
  lemma DestPathInjective(cfg: Config, m1: string, f1: SourceFile, m2: string, f2: SourceFile)
    requires DestPath(cfg, m1, f1) == DestPath(cfg, m2, f2)
    ensures m1 == m2 && f1.day == f2.day && f1.hour == f2.hour && f1.file == f2.file
  {
    var n := |cfg.destRoot|;
    assert DestPath(cfg, m1, f1)[n..] == [m1, f1.day, f1.hour, f1.file];
    assert DestPath(cfg, m2, f2)[n..] == [m2, f2.day, f2.hour, f2.file];
  }

  /** The files that have a destination folder, in order. */
  function Routed(cfg: Config, fs: seq<SourceFile>): (r: seq<SourceFile>)
    ensures |r| <= |fs|
    ensures forall f :: f in r <==> f in fs && Route(cfg, f).Some?
    ensures forall f :: multiset(r)[f] == if Route(cfg, f).Some? then multiset(fs)[f] else 0
  {
    if fs == [] then []
    else
      var init := fs[..|fs| - 1];
      var last := fs[|fs| - 1];
      assert fs == init + [last];
      assert multiset(fs) == multiset(init) + multiset{last};
      if Route(cfg, last).Some? then Routed(cfg, init) + [last] else Routed(cfg, init)
  }

  /** A dry run copies nothing and counts nothing. */
  lemma {:induction false} DryRunChangesNothing(cfg: Config, o: Outcome, fs: seq<SourceFile>)
    requires cfg.dryRun
    ensures Run(cfg, o, fs) == o
  {
    if fs != [] {
      DryRunChangesNothing(cfg, o, fs[..|fs| - 1]);
    }
  }

  /** A file without a destination folder changes neither the count nor the file system. */
  lemma {:induction false} UnroutedIgnored(cfg: Config, o: Outcome, fs: seq<SourceFile>)
    ensures Run(cfg, o, fs) == Run(cfg, o, Routed(cfg, fs))
  {
    if fs != [] {
      var init := fs[..|fs| - 1];
      var last := fs[|fs| - 1];
      UnroutedIgnored(cfg, o, init);
      if Route(cfg, last).Some? {
        var r := Routed(cfg, init) + [last];
        assert r[..|r| - 1] == Routed(cfg, init);
      }
    }
  }

  /**
    Nothing is removed, and after a run that is not a dry run every routed
    file is present at its destination path (copied now, or already there
    and skipped).
  */
  lemma {:induction false} RoutedFilesPresent(cfg: Config, o: Outcome, fs: seq<SourceFile>)
    ensures o.files.Keys <= Run(cfg, o, fs).files.Keys
    ensures !cfg.dryRun ==>
              forall f :: f in fs && Route(cfg, f).Some? ==> DestPath(cfg, Route(cfg, f).value, f) in Run(cfg, o, fs).files
  {
    if fs != [] {
      var init := fs[..|fs| - 1];
      assert fs == init + [fs[|fs| - 1]];
      RoutedFilesPresent(cfg, o, init);
    }
  }

  /**
    Every file present after the run either was there before with the same
    content, or is the destination of a routed file whose source it was
    copied from.
  */
  lemma {:induction false} OnlyDestinationsWritten(cfg: Config, o: Outcome, fs: seq<SourceFile>)
    ensures forall p :: p in Run(cfg, o, fs).files ==>
              (p in o.files && Run(cfg, o, fs).files[p] == o.files[p])
              || exists f :: f in fs && Route(cfg, f).Some? && p == DestPath(cfg, Route(cfg, f).value, f)
                             && Run(cfg, o, fs).files[p] == SourcePath(cfg, f)
  {
    if fs != [] {
      var init := fs[..|fs| - 1];
      var last := fs[|fs| - 1];
      assert fs == init + [last];
      OnlyDestinationsWritten(cfg, o, init);
    }
  }

  /** With skip-existing on, no file present before the run is overwritten. */
  lemma {:induction false} SkipExistingNeverOverwrites(cfg: Config, o: Outcome, fs: seq<SourceFile>)
    requires cfg.skipExisting
    ensures forall p :: p in o.files ==> p in Run(cfg, o, fs).files && Run(cfg, o, fs).files[p] == o.files[p]
  {
    if fs != [] {
      SkipExistingNeverOverwrites(cfg, o, fs[..|fs| - 1]);
    }
  }

  /** Without skip-existing and outside a dry run, every routed file is copied and counted. */
  lemma {:induction false} CountWithoutSkip(cfg: Config, o: Outcome, fs: seq<SourceFile>)
    requires !cfg.skipExisting && !cfg.dryRun
    ensures Run(cfg, o, fs).copied == o.copied + |Routed(cfg, fs)|
  {
    if fs != [] {
      CountWithoutSkip(cfg, o, fs[..|fs| - 1]);
    }
  }

  /** Writing a path that was not present adds one to the files created since `initial`. */
  lemma OneMoreCreated(initial: map<Path, Path>, current: map<Path, Path>, dest: Path, src: Path)
    requires initial.Keys <= current.Keys && dest !in current
    ensures |current[dest := src].Keys - initial.Keys| == |current.Keys - initial.Keys| + 1
  {
    assert current[dest := src].Keys - initial.Keys == (current.Keys - initial.Keys) + {dest};
  }

  /**
    With skip-existing on, the count is the number of destination files
    the run created: each copy goes to a path that was not present.
  */
  lemma {:induction false} CountWithSkip(cfg: Config, o: Outcome, fs: seq<SourceFile>)
    requires cfg.skipExisting
    ensures Run(cfg, o, fs).copied == o.copied + |Run(cfg, o, fs).files.Keys - o.files.Keys|
  {
    if fs != [] {
      var init := fs[..|fs| - 1];
      var last := fs[|fs| - 1];
      CountWithSkip(cfg, o, init);
      var before := Run(cfg, o, init);
      assert Run(cfg, o, fs) == Step(cfg, before, last);
      match Route(cfg, last)
      case None =>
      case Some(mapped) =>
        var dest := DestPath(cfg, mapped, last);
        if dest !in before.files && !cfg.dryRun {
          RoutedFilesPresent(cfg, o, init);
          OneMoreCreated(o.files, before.files, dest, SourcePath(cfg, last));
        }
    }
  }

  /** The count never exceeds the number of routed files. */
  lemma {:induction false} CountBound(cfg: Config, o: Outcome, fs: seq<SourceFile>)
    ensures o.copied <= Run(cfg, o, fs).copied <= o.copied + |Routed(cfg, fs)|
  {
    if fs != [] {
      CountBound(cfg, o, fs[..|fs| - 1]);
    }
  }

  /**
    With a mapping read from a spreadsheet no stored name is empty, so a
    file is skipped as unmapped exactly when the lookup finds nothing.
  */
  lemma LoadedMappingRoutesByMatch(rows: seq<Row>, cfg: Config, f: SourceFile)
    requires cfg.mapping == Load(rows)
    ensures Route(cfg, f) == Match(f.top, cfg.mapping)
  {
    LoadWellFormed(rows);
    var r := Match(f.top, cfg.mapping);
    if r.Some? {
      var i :| IsBest(f.top, cfg.mapping, i) && r.value == cfg.mapping[i].value;
      assert cfg.mapping[i] in cfg.mapping;
    }
  }
}
