/** The version of the application (src/lib_license/utility/Version.cpp): `year.minor`,
    a commit number and a commit hash, read from text such as "2017.3.155-a1b2c3",
    compared, advanced by minor releases and rendered back to text. */
module Versions {
  import opened CppInt
  import opened StringUtility
  import opened StdConversions

  /** The four fields of a version, as a value. */
  datatype VersionFields = VersionFields(year: int, minor: int, commit: int, hash: string)

  /** The fields of a default-constructed `Version()`; its declaration is not part of this
      model, and all-zero fields with an empty hash agree with `isEmpty`. */
  const DEFAULT_FIELDS := VersionFields(0, 0, 0, "")

  /** How `fromString` ends: with the fields it read, or with the exception `std::stoi` threw. */
  datatype ParseOutcome = Parsed(fields: VersionFields) | InvalidArgumentThrown | OutOfRangeThrown

  /** The steps of `fromString`: split at '.', read the year from part 0 and the minor number
      from part 1, split part 2 at '-', read the commit number from its first piece and take
      the hash from its second. Later parts are ignored; a field without a part keeps its
      default. The first `std::stoi` that throws ends the parse. */
  function ParseVersionString(s: string): (r: ParseOutcome)
    ensures r.Parsed? ==> InInt(r.fields.year) && InInt(r.fields.minor) && InInt(r.fields.commit)
  {
    var parts := Segments(s, ".");
    match Stoi(parts[0])
    case InvalidArgument => InvalidArgumentThrown
    case OutOfRange => OutOfRangeThrown
    case Converted(year) =>
      var withYear := DEFAULT_FIELDS.(year := year);
      if |parts| <= 1 then Parsed(withYear)
      else match Stoi(parts[1])
      case InvalidArgument => InvalidArgumentThrown
      case OutOfRange => OutOfRangeThrown
      case Converted(minor) =>
        var withMinor := withYear.(minor := minor);
        if |parts| <= 2 then Parsed(withMinor)
        else
          var hashParts := Segments(parts[2], "-");
          match Stoi(hashParts[0])
          case InvalidArgument => InvalidArgumentThrown
          case OutOfRange => OutOfRangeThrown
          case Converted(commit) =>
            var withCommit := withMinor.(commit := commit);
            if |hashParts| <= 1 then Parsed(withCommit)
            else Parsed(withCommit.(hash := hashParts[1]))
  }

  /** The fields `fromString` returns: what it read, or the default when `std::stoi` found
      no number. */
  function FromStringFields(s: string): VersionFields
    requires ParseVersionString(s) != OutOfRangeThrown
  {
    match ParseVersionString(s)
    case Parsed(fields) => fields
    case InvalidArgumentThrown => DEFAULT_FIELDS
  }

  /** The texts `fromString` hands to `std::stoi`, in order, when none of them fails:
      dot-part 0, dot-part 1 and the first dash-piece of dot-part 2, as far as they exist. */
  function NumericParts(s: string): (texts: seq<string>)
    ensures 1 <= |texts| <= 3
  {
    var parts := Segments(s, ".");
    [parts[0]]
    + (if |parts| > 1 then [parts[1]] else [])
    + (if |parts| > 2 then [Segments(parts[2], "-")[0]] else [])
  }

  /** The minor releases counted from year 0: four a year, minor numbers 1 to 4. */
  function ReleaseIndex(year: int, minor: int): int {
    4 * year + (minor - 1)
  }

  /** Lexicographic order on sequences of numbers. */
  predicate LexLess(a: seq<int>, b: seq<int>) {
    |a| > 0 && |b| > 0 && (a[0] < b[0] || (a[0] == b[0] && LexLess(a[1..], b[1..])))
  }

  class Version {
    var year: int
    var minorNumber: int
    var commitNumber: int
    var commitHash: string

    /** Every numeric field holds a C++ `int`. */
    predicate InRange()
      reads this
    {
      InInt(year) && InInt(minorNumber) && InInt(commitNumber)
    }

    function Fields(): VersionFields
      reads this
    {
      VersionFields(year, minorNumber, commitNumber, commitHash)
    }

    /** What the comparison operators look at: year, minor number, commit number. */
    function Key(): seq<int>
      reads this
    {
      [year, minorNumber, commitNumber]
    }

    constructor (year: int, minor: int, commit: int, hash: string)
      requires InInt(year) && InInt(minor) && InInt(commit)
      ensures InRange()
      ensures Fields() == VersionFields(year, minor, commit, hash)
    {
      this.year := year;
      this.minorNumber := minor;
      this.commitNumber := commit;
      this.commitHash := hash;
    }

    constructor Default()
      ensures InRange()
      ensures Fields() == DEFAULT_FIELDS
    {
      year := 0;
      minorNumber := 0;
      commitNumber := 0;
      commitHash := "";
    }

    /** `Version::fromString`: fills a default version field by field from the parts of the
        text, and starts over with a default version when `std::stoi` finds no number. */
    static method FromString(versionString: string) returns (version: Version)
      requires ParseVersionString(versionString) != OutOfRangeThrown
      ensures fresh(version) && version.InRange()
      ensures version.Fields() == FromStringFields(versionString)
      ensures ParseVersionString(versionString) == InvalidArgumentThrown ==> version.IsEmpty()
    {
      version := new Version.Default();
      var parts := Split(versionString, ".");
      if |parts| > 0 {
        var year := Stoi(parts[0]);
        if year.InvalidArgument? {
          version := new Version.Default();
          return;
        }
        version.year := year.value;
      }
      if |parts| > 1 {
        var minor := Stoi(parts[1]);
        if minor.InvalidArgument? {
          version := new Version.Default();
          return;
        }
        version.minorNumber := minor.value;
      }
      if |parts| > 2 {
        var hashParts := Split(parts[2], "-");
        if |hashParts| > 0 {
          var commit := Stoi(hashParts[0]);
          if commit.InvalidArgument? {
            version := new Version.Default();
            return;
          }
          version.commitNumber := commit.value;
        }
        if |hashParts| > 1 {
          version.commitHash := hashParts[1];
        }
      }
    }

    /** `operator<`: year first, then minor number, then commit number. */
    predicate Less(other: Version)
      reads this, other
    {
      if year != other.year then year < other.year
      else if minorNumber != other.minorNumber then minorNumber < other.minorNumber
      else commitNumber < other.commitNumber
    }

    /** `operator>`, written out field by field like `operator<`. */
    predicate Greater(other: Version)
      reads this, other
    {
      if year != other.year then year > other.year
      else if minorNumber != other.minorNumber then minorNumber > other.minorNumber
      else commitNumber > other.commitNumber
    }

    /** `operator+=`: moves the version `number` minor releases on, carrying into the year,
        with C++'s truncating `/` and `%`. Overflow of `int` is undefined behaviour in C++,
        so the caller must rule it out. */
    method AddMinorReleases(number: int)
      requires InRange() && InInt(number)
      requires InInt(minorNumber - 1) && InInt(minorNumber - 1 + number)
      requires InInt(year + CDiv(minorNumber - 1 + number, 4))
      modifies this
      ensures InRange()
      ensures year == old(year) + CDiv(old(minorNumber) - 1 + number, 4)
      ensures minorNumber == CMod(old(minorNumber) - 1 + number, 4) + 1
      ensures commitNumber == old(commitNumber) && commitHash == old(commitHash)
      ensures ReleaseIndex(year, minorNumber) == ReleaseIndex(old(year), old(minorNumber)) + number
      ensures 1 <= old(minorNumber) <= 4 && number >= 0 ==> 1 <= minorNumber <= 4
      ensures old(IsValid()) && number >= 0 ==> IsValid()
    {
      var minor := minorNumber - 1 + number;
      AdvanceCountsReleases(year, minorNumber, number);
      year := year + CDiv(minor, 4);
      minorNumber := CMod(minor, 4) + 1;
    }

    /** `isValid`: a minor number from 1 to 4 and a year after 2016. */
    predicate IsValid()
      reads this
    {
      minorNumber < 5 && minorNumber > 0 && year > 2016
    }

    /** `isEmpty`: year, minor and commit number all zero; the hash does not matter. */
    predicate IsEmpty()
      reads this
    {
      year == 0 && minorNumber == 0 && commitNumber == 0
    }

    /** `toShortString`: "year.minor". */
    function ToShortString(): string
      reads this
    {
      IntToString(year) + "." + IntToString(minorNumber)
    }

    /** `toString`: "year.minor-commit-hash". */
    function ToString(): string
      reads this
    {
      IntToString(year) + "." + IntToString(minorNumber) + "-" + IntToString(commitNumber) + "-" + commitHash
    }

    /** `toDisplayString`: "year.minor.commit". */
    function ToDisplayString(): string
      reads this
    {
      IntToString(year) + "." + IntToString(minorNumber) + "." + IntToString(commitNumber)
    }
  }

  /** Moving on by `number` minor releases adds exactly `number` to the release index, with
      truncating division as well; the minor number stays within 1 to 4 exactly when the
      new count from the start of the year is not negative, or is a multiple of four. */
  lemma AdvanceCountsReleases(year: int, minor: int, number: int)
    ensures var m := minor - 1 + number;
      ReleaseIndex(year + CDiv(m, 4), CMod(m, 4) + 1) == ReleaseIndex(year, minor) + number
    ensures var m := minor - 1 + number;
      (1 <= CMod(m, 4) + 1 <= 4) <==> (m >= 0 || CMod(m, 4) == 0)
  {
  }

  /** Stepping back one release from minor 1 gives minor 0 of the same year, not minor 4 of
      the year before: C++ truncates the quotient and remainder of -1 by 4 to 0 and -1. */
  lemma StepBackFromFirstMinor(year: int)
    ensures var m := 1 - 1 + -1;
      year + CDiv(m, 4) == year && CMod(m, 4) + 1 == 0
  {
  }
}
