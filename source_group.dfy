/** Which files belong to a Code::Blocks source group, and which indexer commands of the
    project to run (src/lib_cxx/project/SourceGroupCxxCodeblocks.cpp). The file system, path
    containment, exclude-filter matching and the project-file loader are collaborators whose
    code is not part of this model: they are the fields of `Collaborators`, functions about
    which nothing is assumed. */
module SourceGroupCxxCodeblocks {
  import opened Wrappers

  /** An expanded, absolute, canonical file path; two paths are equal when their text is. */
  type Path = string

  /** The pattern of an exclude filter (`FilePathFilter`). */
  type Filter = string

  /** An indexer command the project produces for one source file; only its source file is
      looked at here, the compiler invocation it carries is opaque. */
  datatype IndexerCommand = IndexerCommand(sourceFilePath: Path, compilerInvocation: seq<string>)

  /** A loaded Code::Blocks project: its canonical source file paths for a list of source
      extensions, and the indexer commands it generates for this source group. */
  datatype Project = Project(
    sourceFilePathsCanonical: seq<string> -> seq<Path>,
    indexerCommands: seq<IndexerCommand>)

  /** The settings of the source group, already expanded and made absolute. */
  datatype Settings = Settings(
    codeblocksProjectPath: Path,
    sourceExtensions: seq<string>,
    excludeFilters: seq<Filter>,
    indexedHeaderPaths: seq<Path>)

  /** The operations the source group calls but does not define. */
  datatype Collaborators = Collaborators(
    samePath: (Path, Path) -> bool,         // FilePath::operator==
    fileExists: Path -> bool,               // FilePath::exists
    contains: (Path, Path) -> bool,         // FilePath::contains: the second lies inside the first
    isMatching: (Filter, Path) -> bool,     // FilePathFilter::isMatching
    loadProject: Path -> Option<Project>)   // Codeblocks::Project::load

  /** What `prepareIndexing` decides: go ahead, or report that the project file is gone. */
  datatype Readiness = Ready | ProjectMissing(projectPath: Path)

  /** Some exclude filter matches `p`. */
  predicate IsExcluded(env: Collaborators, filters: seq<Filter>, p: Path) {
    exists i :: 0 <= i < |filters| && env.isMatching(filters[i], p)
  }

  /** `p` is one of the indexed paths or lies inside one. */
  predicate IsInIndexedPaths(env: Collaborators, indexedPaths: set<Path>, p: Path) {
    exists q :: q in indexedPaths && (env.samePath(q, p) || env.contains(q, p))
  }

  /** The scope of the source group: the declared canonical source paths that no exclude
      filter matches and that exist; nothing when the project does not load. */
  ghost function SourceFilePaths(settings: Settings, env: Collaborators): set<Path> {
    match env.loadProject(settings.codeblocksProjectPath)
    case None => {}
    case Some(project) =>
      set p | p in project.sourceFilePathsCanonical(settings.sourceExtensions)
        && !IsExcluded(env, settings.excludeFilters, p) && env.fileExists(p)
  }

  /** Everything the containment test measures against: the scope and the indexed header
      paths, the latter taken as they are. */
  ghost function IndexedPaths(settings: Settings, env: Collaborators): set<Path> {
    SourceFilePaths(settings, env) + set h | h in settings.indexedHeaderPaths
  }

  /** The candidates that are, or lie inside, an indexed path and that no filter excludes. */
  ghost function ContainedFilePaths(settings: Settings, env: Collaborators, filePaths: set<Path>): set<Path> {
    set p | p in filePaths
      && IsInIndexedPaths(env, IndexedPaths(settings, env), p)
      && !IsExcluded(env, settings.excludeFilters, p)
  }

  /** The project's commands whose source file is to be indexed, in the project's order. */
  function SelectCommands(commands: seq<IndexerCommand>, filesToIndex: set<Path>): seq<IndexerCommand> {
    if commands == [] then []
    else
      (if commands[0].sourceFilePath in filesToIndex then [commands[0]] else [])
      + SelectCommands(commands[1..], filesToIndex)
  }

  /** `prepareIndexing`: ready when no project file is configured or when it exists;
      otherwise the "Can't refresh" status and dialog report the missing path. */
  function PrepareIndexing(settings: Settings, env: Collaborators): (r: Readiness)
    ensures r.Ready? <==> settings.codeblocksProjectPath == [] || env.fileExists(settings.codeblocksProjectPath)
    ensures r.ProjectMissing? ==> r.projectPath == settings.codeblocksProjectPath && r.projectPath != []
  {
    var projectPath := settings.codeblocksProjectPath;
    if projectPath != [] && !env.fileExists(projectPath) then ProjectMissing(projectPath) else Ready
  }

  /** The loop over the exclude filters that stops at the first one matching `p`. */
  method MatchesExcludeFilter(env: Collaborators, excludeFilters: seq<Filter>, p: Path) returns (isExcluded: bool)
    ensures isExcluded <==> IsExcluded(env, excludeFilters, p)
  {
    isExcluded := false;
    for i := 0 to |excludeFilters|
      invariant forall k :: 0 <= k < i ==> !env.isMatching(excludeFilters[k], p)
    {
      if env.isMatching(excludeFilters[i], p) {
        isExcluded := true;
        break;
      }
    }
  }

  /** The loop over the indexed paths that stops at the first one equal to `p` or
      containing it. */
  method MatchesIndexedPath(env: Collaborators, indexedPaths: set<Path>, p: Path) returns (isInIndexedPaths: bool)
    ensures isInIndexedPaths <==> IsInIndexedPaths(env, indexedPaths, p)
  {
    isInIndexedPaths := false;
    var remaining := indexedPaths;
    while remaining != {}
      invariant remaining <= indexedPaths
      invariant forall q :: q in indexedPaths && q !in remaining ==> !(env.samePath(q, p) || env.contains(q, p))
      decreases remaining
    {
      var q :| q in remaining;
      if env.samePath(q, p) || env.contains(q, p) {
        isInIndexedPaths := true;
        break;
      }
      remaining := remaining - {q};
    }
  }

  /** `getAllSourceFilePaths`: loads the project and keeps each declared canonical source
      path that no exclude filter matches and that exists. */
  method GetAllSourceFilePaths(settings: Settings, env: Collaborators) returns (sourceFilePaths: set<Path>)
    ensures sourceFilePaths == SourceFilePaths(settings, env)
    ensures env.loadProject(settings.codeblocksProjectPath).None? ==> sourceFilePaths == {}
    ensures forall p :: p in sourceFilePaths ==> env.fileExists(p) && !IsExcluded(env, settings.excludeFilters, p)
  {
    sourceFilePaths := {};
    var loaded := env.loadProject(settings.codeblocksProjectPath);
    if loaded.Some? {
      var project := loaded.value;
      var excludeFilters := settings.excludeFilters;
      var declared := project.sourceFilePathsCanonical(settings.sourceExtensions);
      for i := 0 to |declared|
        invariant sourceFilePaths == set p | p in declared[..i]
          && !IsExcluded(env, excludeFilters, p) && env.fileExists(p)
      {
        var filePath := declared[i];
        var isExcluded := MatchesExcludeFilter(env, excludeFilters, filePath);
        if !isExcluded && env.fileExists(filePath) {
          sourceFilePaths := sourceFilePaths + {filePath};
        }
        assert declared[..i + 1] == declared[..i] + [filePath];
      }
      assert declared[..|declared|] == declared;
    }
  }

  /** `filterToContainedFilePaths`: keeps each candidate that is, or lies inside, one of the
      indexed paths (the scope and the indexed header paths) and that no exclude filter
      matches. */
  method FilterToContainedFilePaths(settings: Settings, env: Collaborators, filePaths: set<Path>)
    returns (containedFilePaths: set<Path>)
    ensures containedFilePaths == ContainedFilePaths(settings, env, filePaths)
    ensures containedFilePaths <= filePaths
    ensures forall p :: p in containedFilePaths <==>
      p in filePaths && !IsExcluded(env, settings.excludeFilters, p)
      && exists q :: q in IndexedPaths(settings, env) && (env.samePath(q, p) || env.contains(q, p))
  {
    containedFilePaths := {};
    var sourceFilePaths := GetAllSourceFilePaths(settings, env);
    var indexedPaths := sourceFilePaths + set h | h in settings.indexedHeaderPaths;
    var excludeFilters := settings.excludeFilters;
    var remaining := filePaths;
    while remaining != {}
      invariant remaining <= filePaths
      invariant containedFilePaths == set p | p in filePaths - remaining
        && IsInIndexedPaths(env, indexedPaths, p) && !IsExcluded(env, excludeFilters, p)
      decreases remaining
    {
      var filePath :| filePath in remaining;
      var isInIndexedPaths := MatchesIndexedPath(env, indexedPaths, filePath);
      if isInIndexedPaths {
        var isExcluded := MatchesExcludeFilter(env, excludeFilters, filePath);
        if isExcluded {
          isInIndexedPaths := false;
        }
      }
      if isInIndexedPaths {
        containedFilePaths := containedFilePaths + {filePath};
      }
      remaining := remaining - {filePath};
    }
  }

  /** `getIndexerCommands`: the project's commands whose source file is among `filesToIndex`,
      in the order the project lists them; none when the project does not load. */
  method GetIndexerCommands(settings: Settings, env: Collaborators, filesToIndex: set<Path>)
    returns (indexerCommands: seq<IndexerCommand>)
    ensures env.loadProject(settings.codeblocksProjectPath).None? ==> indexerCommands == []
    ensures env.loadProject(settings.codeblocksProjectPath).Some? ==>
      indexerCommands == SelectCommands(env.loadProject(settings.codeblocksProjectPath).value.indexerCommands, filesToIndex)
  {
    indexerCommands := [];
    var loaded := env.loadProject(settings.codeblocksProjectPath);
    if loaded.Some? {
      var commands := loaded.value.indexerCommands;
      for i := 0 to |commands|
        invariant indexerCommands + SelectCommands(commands[i..], filesToIndex) == SelectCommands(commands, filesToIndex)
      {
        assert commands[i..][1..] == commands[i + 1..];
        if commands[i].sourceFilePath in filesToIndex {
          indexerCommands := indexerCommands + [commands[i]];
        }
      }
    }
  }
}
