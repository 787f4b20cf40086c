/** What the Code::Blocks source group promises, proved about the model in module
    SourceGroupCxxCodeblocks. */
module SourceGroupProperties {
  import opened Wrappers
  import opened SourceGroupCxxCodeblocks

  /** The same settings with further exclude filters appended. */
  function WithMoreExcludeFilters(settings: Settings, more: seq<Filter>): Settings {
    settings.(excludeFilters := settings.excludeFilters + more)
  }

  /** A path an exclude filter matches stays matched when filters are added. */
  lemma ExcludedStaysExcluded(env: Collaborators, filters: seq<Filter>, more: seq<Filter>, p: Path)
    requires IsExcluded(env, filters, p)
    ensures IsExcluded(env, filters + more, p)
  {
    var i :| 0 <= i < |filters| && env.isMatching(filters[i], p);
    assert (filters + more)[i] == filters[i];
  }

  /** Adding exclude filters can only remove files from the scope. */
  lemma MoreExcludeFiltersShrinkScope(settings: Settings, env: Collaborators, more: seq<Filter>)
    ensures SourceFilePaths(WithMoreExcludeFilters(settings, more), env) <= SourceFilePaths(settings, env)
  {
    var narrower := WithMoreExcludeFilters(settings, more);
    forall p | p in SourceFilePaths(narrower, env) ensures p in SourceFilePaths(settings, env) {
      if IsExcluded(env, settings.excludeFilters, p) {
        ExcludedStaysExcluded(env, settings.excludeFilters, more, p);
      }
    }
  }

  /** Adding exclude filters can only remove paths from what `filterToContainedFilePaths`
      keeps: the scope shrinks and more candidates are vetoed. */
  lemma MoreExcludeFiltersShrinkContained(settings: Settings, env: Collaborators, filePaths: set<Path>, more: seq<Filter>)
    ensures ContainedFilePaths(WithMoreExcludeFilters(settings, more), env, filePaths)
      <= ContainedFilePaths(settings, env, filePaths)
  {
    var narrower := WithMoreExcludeFilters(settings, more);
    MoreExcludeFiltersShrinkScope(settings, env, more);
    assert IndexedPaths(narrower, env) <= IndexedPaths(settings, env);
    forall p | p in ContainedFilePaths(narrower, env, filePaths)
      ensures p in ContainedFilePaths(settings, env, filePaths)
    {
      var q :| q in IndexedPaths(narrower, env) && (env.samePath(q, p) || env.contains(q, p));
      assert q in IndexedPaths(settings, env);
      if IsExcluded(env, settings.excludeFilters, p) {
        ExcludedStaysExcluded(env, settings.excludeFilters, more, p);
      }
    }
  }

  /** An indexed header path widens containment as it is: a candidate equal to it or inside
      it is kept unless excluded, whether or not the header path itself exists or is
      excluded, and even when the project does not load. */
  lemma HeaderPathsWidenContainment(settings: Settings, env: Collaborators, filePaths: set<Path>, h: Path, p: Path)
    requires h in settings.indexedHeaderPaths
    requires p in filePaths && (env.samePath(h, p) || env.contains(h, p))
    requires !IsExcluded(env, settings.excludeFilters, p)
    ensures p in ContainedFilePaths(settings, env, filePaths)
  {
    assert h in IndexedPaths(settings, env);
  }

  /** A path is in the scope exactly when the project loads, declares it as a source file,
      no exclude filter matches it and it exists. */
  lemma ScopeMembership(settings: Settings, env: Collaborators, p: Path)
    ensures p in SourceFilePaths(settings, env) <==>
      && env.loadProject(settings.codeblocksProjectPath).Some?
      && p in env.loadProject(settings.codeblocksProjectPath).value.sourceFilePathsCanonical(settings.sourceExtensions)
      && !IsExcluded(env, settings.excludeFilters, p)
      && env.fileExists(p)
  {
  }

  /** An excluded path is neither in the scope nor kept by `filterToContainedFilePaths`. */
  lemma ExcludedPathsAreDropped(settings: Settings, env: Collaborators, filePaths: set<Path>, p: Path)
    requires IsExcluded(env, settings.excludeFilters, p)
    ensures p !in SourceFilePaths(settings, env)
    ensures p !in ContainedFilePaths(settings, env, filePaths)
  {
  }

  /** Every file of the scope lies within the indexed paths: as long as path equality is
      reflexive, filtering the scope itself keeps all of it. */
  lemma ScopeIsContained(settings: Settings, env: Collaborators)
    requires forall q :: env.samePath(q, q)
    ensures ContainedFilePaths(settings, env, SourceFilePaths(settings, env)) == SourceFilePaths(settings, env)
  {
  }

  /** When the project does not load, the scope is empty and only the indexed header paths
      count for containment. */
  lemma UnloadableProjectIndexesHeadersOnly(settings: Settings, env: Collaborators)
    requires env.loadProject(settings.codeblocksProjectPath).None?
    ensures SourceFilePaths(settings, env) == {}
    ensures IndexedPaths(settings, env) == set h | h in settings.indexedHeaderPaths
  {
  }

  /** `a` is `b` with some elements left out, the rest kept in order. */
  predicate IsSubsequence<T(==)>(a: seq<T>, b: seq<T>)
    decreases |b|
  {
    if b == [] then a == []
    else (a != [] && a[0] == b[0] && IsSubsequence(a[1..], b[1..])) || IsSubsequence(a, b[1..])
  }

  /** The selected commands keep the project's order. */
  lemma {:induction false} SelectCommandsIsSubsequence(commands: seq<IndexerCommand>, filesToIndex: set<Path>)
    ensures IsSubsequence(SelectCommands(commands, filesToIndex), commands)
  {
    if commands != [] {
      SelectCommandsIsSubsequence(commands[1..], filesToIndex);
      var rest := SelectCommands(commands[1..], filesToIndex);
      if commands[0].sourceFilePath in filesToIndex {
        assert SelectCommands(commands, filesToIndex) == [commands[0]] + rest;
        assert ([commands[0]] + rest)[1..] == rest;
      } else {
        assert SelectCommands(commands, filesToIndex) == rest;
      }
    }
  }

  /** The selection holds every command whose source file is to be indexed, as often as the
      project lists it, and no other command. */
  lemma {:induction false} SelectCommandsKeepsExactly(commands: seq<IndexerCommand>, filesToIndex: set<Path>, c: IndexerCommand)
    ensures multiset(SelectCommands(commands, filesToIndex))[c]
      == if c.sourceFilePath in filesToIndex then multiset(commands)[c] else 0
    ensures c in SelectCommands(commands, filesToIndex) <==> c in commands && c.sourceFilePath in filesToIndex
  {
    if commands != [] {
      SelectCommandsKeepsExactly(commands[1..], filesToIndex, c);
      assert commands == [commands[0]] + commands[1..];
      assert multiset(commands) == multiset{commands[0]} + multiset(commands[1..]);
    }
  }
}
