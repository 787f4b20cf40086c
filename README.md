# Code::Blocks source group and version strings, modelled in Dafny

This project models two independent parts of a C++ source-indexing application.

**The Code::Blocks source group** decides which files belong to a project described by a
Code::Blocks project file, and which of the project's indexer commands to run:

- `prepareIndexing` checks that the configured project file is either unset or still there.
- `getAllSourceFilePaths` loads the project and collects the scope. The scope is the declared
  canonical source paths that no exclude filter matches and that exist.
- `filterToContainedFilePaths` keeps each candidate path that equals, or lies inside, an
  indexed path and that no exclude filter matches. The indexed paths are the scope plus the
  indexed header paths.
- `getIndexerCommands` keeps the project's commands whose source file is to be indexed, in
  the project's order.

Path equality, the file system, path containment, exclude-filter matching and the
project-file loader are collaborators whose code is not part of this model. They are the function-valued fields of
`Collaborators`, and nothing is assumed about them. So every property below holds for any
file system, any filter semantics and any project file. The loops keep their `break`s: the
inner loops over filters and indexed paths are the methods `MatchesExcludeFilter` and
`MatchesIndexedPath`. Each loop is proved to compute the corresponding ∃ formula
(`IsExcluded`, `IsInIndexedPaths`).

**The version utility** reads texts such as `2017.3.155-a1b2c3`: a year, a minor number (one
to four releases a year), a commit number and a commit hash. It compares versions, advances
them by minor releases and renders them back to text:

- The `split` helper is a do-while loop over `std::string::find`. It is modelled as the method
  `Split`, proved equal to the recursive definition `Segments`.
- `std::stoi` is modelled as `Stoi`: optional white space, an optional sign, at least one digit,
  and trailing text ignored. No digit gives `std::invalid_argument`; a value outside `int`
  gives `std::out_of_range`.
- `fromString` assigns the fields of a default version one by one and falls back to a fresh
  default version when `std::stoi` throws `std::invalid_argument`.
- `operator+=` changes the object in place, so `Version` is a class. The C++ operators `/`
  and `%` truncate toward zero, and are modelled as `CDiv` and `CMod`.
- The comparisons, the predicates and the renderers are functions of the object's fields.

Facts the proofs bring out:

- `operator+=` always advances the release index `4*year + minor - 1` by `number`. But the
  minor number stays within 1..4 only when `minor - 1 + number` is not negative or is a
  multiple of four. For example, `2017.1 += -1` gives `2017.0`, not `2016.4`.
- `fromString(toDisplayString())` reads back year, minor and commit only when the commit is
  not negative. The minus sign of a negative commit is taken for the dash before the hash.
- `toString` writes `year.minor-commit-hash`. When the hash has no '.', `fromString` reads that
  text as year and minor only, with commit 0 and no hash. A hash with a '.' makes the text
  after it a third dot-part, which is then read as the commit or makes parsing fall back to
  the default version.

## Model

| member | source | states |
|---|---|---|
| `SourceGroupCxxCodeblocks.PrepareIndexing` | src/lib_cxx/project/SourceGroupCxxCodeblocks.cpp:16-36 | ready exactly when the project path is empty or exists; otherwise the reported status carries the non-empty missing path |
| `SourceGroupCxxCodeblocks.MatchesExcludeFilter` | src/lib_cxx/project/SourceGroupCxxCodeblocks.cpp:93-101 | the loop with `break` over the exclude filters returns true exactly when some filter matches the path |
| `SourceGroupCxxCodeblocks.MatchesIndexedPath` | src/lib_cxx/project/SourceGroupCxxCodeblocks.cpp:51-59 | the loop with `break` over the indexed paths returns true exactly when some indexed path is the same path (`FilePath::operator==`) as the candidate or contains it |
| `SourceGroupCxxCodeblocks.GetAllSourceFilePaths` | src/lib_cxx/project/SourceGroupCxxCodeblocks.cpp:82-110 | the result is the set of declared canonical source paths that no filter matches and that exist; it is empty when the project does not load |
| `SourceGroupCxxCodeblocks.FilterToContainedFilePaths` | src/lib_cxx/project/SourceGroupCxxCodeblocks.cpp:38-80 | the result is a subset of the candidates; a candidate is kept exactly when some indexed path (scope ∪ header paths) equals or contains it and no filter matches it |
| `SourceGroupCxxCodeblocks.GetIndexerCommands` | src/lib_cxx/project/SourceGroupCxxCodeblocks.cpp:112-128 | the result is empty when the project does not load, otherwise the project's commands filtered by source file, in order (`SelectCommands`) |
| `SourceGroupProperties.ScopeMembership` | src/lib_cxx/project/SourceGroupCxxCodeblocks.cpp:91-106 | a path is in the scope iff the project loads and declares it, no exclude filter matches it, and it exists |
| `SourceGroupProperties.MoreExcludeFiltersShrinkScope` | src/lib_cxx/project/SourceGroupCxxCodeblocks.cpp:91-106 | appending exclude filters never adds a file to the scope |
| `SourceGroupProperties.MoreExcludeFiltersShrinkContained` | src/lib_cxx/project/SourceGroupCxxCodeblocks.cpp:42-76 | appending exclude filters never adds a path to what `filterToContainedFilePaths` keeps, although it also shrinks the indexed paths |
| `SourceGroupProperties.HeaderPathsWidenContainment` | src/lib_cxx/project/SourceGroupCxxCodeblocks.cpp:42-45 | a candidate that is the same path as an indexed header path, or lies inside it, is kept unless excluded; the header path itself is not checked for existence or exclusion |
| `SourceGroupProperties.ExcludedPathsAreDropped` | src/lib_cxx/project/SourceGroupCxxCodeblocks.cpp:61-76 | a path some exclude filter matches is neither in the scope nor kept as contained |
| `SourceGroupProperties.ScopeIsContained` | src/lib_cxx/project/SourceGroupCxxCodeblocks.cpp:49-77 | when path equality is reflexive, filtering the scope itself keeps all of it |
| `SourceGroupProperties.UnloadableProjectIndexesHeadersOnly` | src/lib_cxx/project/SourceGroupCxxCodeblocks.cpp:84-109 | when the project does not load, the scope is empty and the indexed paths are just the header paths |
| `SourceGroupProperties.SelectCommandsIsSubsequence` | src/lib_cxx/project/SourceGroupCxxCodeblocks.cpp:119-125 | the selected commands are an order-preserving subsequence of the project's commands |
| `SourceGroupProperties.SelectCommandsKeepsExactly` | src/lib_cxx/project/SourceGroupCxxCodeblocks.cpp:119-125 | each command whose source file is to be indexed is selected as often as the project lists it, and no other command is selected |
| `StringUtility.IndexOf` | src/lib_license/utility/Version.cpp:16 | `find` returns the first occurrence at or after the start position, or `npos` when there is none |
| `StringUtility.Split` | src/lib_license/utility/Version.cpp:7-23 | the do-while loop returns exactly `Segments(s, d)`: the texts between successive first occurrences of the delimiter |
| `StringUtility.JoinSegments` | src/lib_license/utility/Version.cpp:14-20 | joining the parts with the delimiter gives back the input |
| `StringUtility.SegmentsAvoidDelimiter` | src/lib_license/utility/Version.cpp:14-20 | no part contains the delimiter |
| `StringUtility.SegmentCount` | src/lib_license/utility/Version.cpp:14-20 | there is one more part than there are non-overlapping occurrences of the delimiter, counted left to right |
| `StdConversions.StoiOfIntToString` | src/lib_license/utility/Version.cpp:38 | `std::stoi` reads back any `int` that `<<` wrote, whatever non-digit text follows it |
| `StdConversions.IntToString` | src/lib_license/utility/Version.cpp:146 | the decimal rendering is non-empty, has no '.', and is all digits exactly for non-negative numbers, with a leading '-' otherwise |
| `CppInt.CMod` | src/lib_license/utility/Version.cpp:105-106 | the truncating quotient and remainder recompose the dividend, and the remainder takes the dividend's sign |
| `Versions.ParseVersionString` | src/lib_license/utility/Version.cpp:29-68 | every field a successful parse yields fits in `int` |
| `Versions.Version.FromString` | src/lib_license/utility/Version.cpp:29-68 | the new version holds the parsed fields, or the default fields when `std::stoi` found no number; in that case it is empty |
| `VersionProperties.FromStringReadsParts` | src/lib_license/utility/Version.cpp:34-58 | parsing succeeds iff every consulted part converts, and falls back to the default iff the first failing one has no leading integer; the fields come from dot-parts 0 and 1 and dash-pieces 0 and 1 of dot-part 2, and missing parts leave defaults |
| `VersionProperties.ParseFullForm` | src/lib_license/utility/Version.cpp:29-68 | "year.minor.commit-hash" with a non-negative commit and a hash without '.' or '-' parses to exactly those four fields |
| `Versions.Version.constructor` | src/lib_license/utility/Version.cpp:130-136 | the fields are the arguments |
| `Versions.Version.Default` | src/lib_license/utility/Version.cpp:67 | the default version is 0.0, commit 0, empty hash |
| `VersionProperties.LessIsLexicographic` | src/lib_license/utility/Version.cpp:70-84 | `operator<` is the lexicographic order on (year, minor, commit) and ignores the hash |
| `VersionProperties.LessIsStrictOrder` | src/lib_license/utility/Version.cpp:70-84 | `operator<` is irreflexive and transitive |
| `VersionProperties.GreaterIsConverseOfLess` | src/lib_license/utility/Version.cpp:86-100 | `a > b` iff `b < a`; exactly one of `a < b`, `b < a` and equal (year, minor, commit) holds |
| `Versions.Version.AddMinorReleases` | src/lib_license/utility/Version.cpp:102-108 | new year and minor are the truncating quotient and remainder; the release index grows by `number`; commit and hash are unchanged; for minor in 1..4 and `number >= 0` the minor stays in 1..4 and validity is kept |
| `Versions.AdvanceCountsReleases` | src/lib_license/utility/Version.cpp:104-106 | the release index always grows by exactly `number`; the new minor is in 1..4 iff `minor - 1 + number` is not negative or is a multiple of 4 |
| `Versions.StepBackFromFirstMinor` | src/lib_license/utility/Version.cpp:104-106 | going back one release from minor 1 gives minor 0 of the same year |
| `VersionProperties.EmptyIsNotValid` | src/lib_license/utility/Version.cpp:110-118 | a version with year, minor and commit all zero is never valid |
| `VersionProperties.DisplayStringRoundTrip` | src/lib_license/utility/Version.cpp:157-162 | `fromString(toDisplayString())` gives back year, minor and a non-negative commit |
| `VersionProperties.DisplayStringNegativeCommit` | src/lib_license/utility/Version.cpp:157-162 | with a negative commit the display string parses to the default version |
| `VersionProperties.ShortStringRoundTrip` | src/lib_license/utility/Version.cpp:143-148 | `fromString(toShortString())` gives back year and minor |
| `VersionProperties.ToStringLosesCommit` | src/lib_license/utility/Version.cpp:150-155 | for a hash without '.', `fromString(toString())` gives back year and minor, but commit 0 and no hash |

## Left out

- The "Can't refresh" status message, the `Application` singleton and its dialog in `prepareIndexing` are not modelled. `PrepareIndexing` returns `ProjectMissing(path)` instead, carrying the path the dialog would show.
- `Codeblocks::Project::load`, `getAllSourceFilePathsCanonical`, `getIndexerCommands` of the project, `FilePath::operator==`, `FilePath::exists`, `FilePath::contains` and `FilePathFilter::isMatching` are uninterpreted functions in `Collaborators`. Their code (project-file parsing, the file system, glob matching) is not part of this model.
- The project's command list does not take the application settings as an argument. It is the list the project produces for this source group.
- The settings getters, including their expansion to absolute paths, are not modelled. The settings are a value passed to each operation, and the model never changes them.
- `getSourceGroupSettings` and the constructor of the source group are not modelled: they only return or store the settings.
- The static application version (`s_version`, `setApplicationVersion`, `getApplicationVersion`) is not modelled: it is a global variable with no logic.
- Versions.Version.FromString: requires that no `std::stoi` it reaches throws `std::out_of_range`, because that exception is not caught and ends the program's control flow.
- Versions.Version.AddMinorReleases: requires that no `int` arithmetic overflows, neither `minorNumber - 1`, nor adding `number` to it, nor adding the quotient to the year, because signed overflow is undefined behaviour in C++.
- `std::stoi` is modelled for base 10 in the C locale. The `<<` rendering of `int` is plain decimal with a leading '-'.
- `split` with an empty delimiter never terminates in C++ and is not modelled. `Split` requires a non-empty delimiter; the only callers pass "." and "-".
- The default constructor of `Version` is declared in a header that is not part of this model. Its fields are taken to be 0, 0, 0 and "", which agrees with `isEmpty`.
- Sets of paths are Dafny sets of the path texts. `std::set<FilePath>` orders and deduplicates by `FilePath`'s own comparison, which the model takes to agree with equality of the canonical texts. Only the membership test of `filterToContainedFilePaths` goes through the uninterpreted `FilePath::operator==`.
- The C++ iteration order of `std::set` is not modelled. The loops over sets pick elements in any order, and the results are proved not to depend on it.
