/** What the version utility promises, proved about the model in module Versions:
    the comparison operators form a lexicographic strict order, and `fromString` reads back
    the text the renderers write (in the cases where it does). */
module VersionProperties {
  import opened CppInt
  import opened StringUtility
  import opened StdConversions
  import opened Versions

  lemma {:induction false} LexLessIrreflexive(a: seq<int>)
    ensures !LexLess(a, a)
  {
    if |a| > 0 {
      LexLessIrreflexive(a[1..]);
    }
  }

  lemma {:induction false} LexLessTransitive(a: seq<int>, b: seq<int>, c: seq<int>)
    requires LexLess(a, b) && LexLess(b, c)
    ensures LexLess(a, c)
  {
    if a[0] == b[0] && b[0] == c[0] {
      LexLessTransitive(a[1..], b[1..], c[1..]);
    }
  }

  /** For sequences of one length, exactly one of less, greater and equal holds. */
  lemma {:induction false} LexTrichotomy(a: seq<int>, b: seq<int>)
    requires |a| == |b|
    ensures LexLess(a, b) || LexLess(b, a) || a == b
    ensures !(LexLess(a, b) && LexLess(b, a))
    ensures a == b ==> !LexLess(a, b)
  {
    if |a| > 0 {
      LexTrichotomy(a[1..], b[1..]);
      if a[0] == b[0] && a[1..] == b[1..] {
        assert a == [a[0]] + a[1..] && b == [b[0]] + b[1..];
      }
    }
    if a == b {
      LexLessIrreflexive(a);
    }
  }

  /** `operator<` is the lexicographic order on (year, minor, commit); the hash plays no part. */
  lemma LessIsLexicographic(a: Version, b: Version)
    ensures a.Less(b) <==> LexLess(a.Key(), b.Key())
  {
    var ka, kb := a.Key(), b.Key();
    var ka1, kb1 := [a.minorNumber, a.commitNumber], [b.minorNumber, b.commitNumber];
    var ka2, kb2 := [a.commitNumber], [b.commitNumber];
    assert ka[1..] == ka1 && kb[1..] == kb1;
    assert ka1[1..] == ka2 && kb1[1..] == kb2;
    assert !LexLess(ka2[1..], kb2[1..]);
    assert LexLess(ka2, kb2) <==> a.commitNumber < b.commitNumber;
    assert LexLess(ka1, kb1) <==>
      a.minorNumber < b.minorNumber || (a.minorNumber == b.minorNumber && LexLess(ka2, kb2));
    assert LexLess(ka, kb) <==> a.year < b.year || (a.year == b.year && LexLess(ka1, kb1));
  }

  /** `operator<` is a strict order: irreflexive and transitive. */
  lemma LessIsStrictOrder(a: Version, b: Version, c: Version)
    ensures !a.Less(a)
    ensures a.Less(b) && b.Less(c) ==> a.Less(c)
  {
  }

  /** `a > b` holds exactly when `b < a`, and of `a < b`, `b < a` and equal
      (year, minor, commit) exactly one holds. */
  lemma GreaterIsConverseOfLess(a: Version, b: Version)
    ensures a.Greater(b) <==> b.Less(a)
    ensures a.Less(b) || b.Less(a) || a.Key() == b.Key()
    ensures !(a.Less(b) && b.Less(a))
    ensures a.Key() == b.Key() ==> !a.Less(b) && !b.Less(a)
  {
  }

  /** `fromString` fails, and so returns the empty default version, exactly when the first
      consulted part that is not a number has no leading integer at all; when it succeeds,
      each field comes from its part, and a field without a part keeps its default. */
  lemma FromStringReadsParts(s: string)
    ensures var texts := NumericParts(s);
      ParseVersionString(s).Parsed? <==> forall i :: 0 <= i < |texts| ==> Stoi(texts[i]).Converted?
    ensures var texts := NumericParts(s);
      ParseVersionString(s) == InvalidArgumentThrown <==>
        exists i :: 0 <= i < |texts| && Stoi(texts[i]) == InvalidArgument &&
          forall j :: 0 <= j < i ==> Stoi(texts[j]).Converted?
    ensures var texts := NumericParts(s); var parts := Segments(s, ".");
      ParseVersionString(s).Parsed? ==>
        var f := ParseVersionString(s).fields;
        && f.year == Stoi(texts[0]).value
        && f.minor == (if |texts| > 1 then Stoi(texts[1]).value else 0)
        && f.commit == (if |texts| > 2 then Stoi(texts[2]).value else 0)
        && f.hash == (if |parts| > 2 && |Segments(parts[2], "-")| > 1 then Segments(parts[2], "-")[1] else "")
  {
    var texts := NumericParts(s);
    var parts := Segments(s, ".");
    assert texts[0] == parts[0];
    assert |parts| > 1 ==> texts[1] == parts[1];
    assert |parts| > 2 ==> texts[2] == Segments(parts[2], "-")[0];
    assert |texts| == if |parts| > 2 then 3 else |parts|;
  }

  /** "a.b" splits at '.' into its two pieces. */
  lemma DotParts2(a: string, b: string)
    requires '.' !in a && '.' !in b
    ensures Segments(a + "." + b, ".") == [a, b]
  {
    assert a + "." + b == a + ['.'] + b;
    SegmentsAfterFirst(a, '.', b);
    SegmentsWithoutDelimiter(b, '.');
  }

  /** "a.b.c" splits at '.' into its three pieces. */
  lemma DotParts3(a: string, b: string, c: string)
    requires '.' !in a && '.' !in b && '.' !in c
    ensures Segments(a + "." + b + "." + c, ".") == [a, b, c]
  {
    assert a + "." + b + "." + c == a + ['.'] + (b + "." + c);
    SegmentsAfterFirst(a, '.', b + "." + c);
    DotParts2(b, c);
  }

  /** A text `fromString` splits into exactly two parts reads year and minor number from them. */
  lemma ParseOfTwoParts(s: string, y: int, m: string)
    requires Segments(s, ".") == [IntToString(y), m]
    requires InInt(y)
    ensures ParseVersionString(s) ==
      match Stoi(m)
      case InvalidArgument => InvalidArgumentThrown
      case OutOfRange => OutOfRangeThrown
      case Converted(minor) => Parsed(VersionFields(y, minor, 0, ""))
  {
    StoiOfIntToString(y, []);
    assert IntToString(y) + [] == IntToString(y);
  }

  /** A text `fromString` splits into exactly three parts reads its fields from them. */
  lemma ParseOfThreeParts(s: string, y: int, m: int, t: string)
    requires Segments(s, ".") == [IntToString(y), IntToString(m), t]
    requires InInt(y) && InInt(m)
    ensures ParseVersionString(s) ==
      match Stoi(Segments(t, "-")[0])
      case InvalidArgument => InvalidArgumentThrown
      case OutOfRange => OutOfRangeThrown
      case Converted(c) =>
        Parsed(VersionFields(y, m, c, if |Segments(t, "-")| > 1 then Segments(t, "-")[1] else ""))
  {
    StoiOfIntToString(y, []);
    StoiOfIntToString(m, []);
    assert IntToString(y) + [] == IntToString(y) && IntToString(m) + [] == IntToString(m);
  }

  /** A text with no '.' and no '-' in its hash: "year.minor.commit-hash" with a commit number
      that is not negative reads back as those four fields. */
  lemma ParseFullForm(year: int, minor: int, commit: int, hash: string)
    requires InInt(year) && InInt(minor) && InInt(commit) && commit >= 0
    requires '.' !in hash && '-' !in hash
    ensures ParseVersionString(IntToString(year) + "." + IntToString(minor) + "." + IntToString(commit) + "-" + hash)
      == Parsed(VersionFields(year, minor, commit, hash))
  {
    var c := IntToString(commit);
    var tail := c + "-" + hash;
    assert '.' !in tail;
    DotParts3(IntToString(year), IntToString(minor), tail);
    assert IntToString(year) + "." + IntToString(minor) + "." + c + "-" + hash
      == IntToString(year) + "." + IntToString(minor) + "." + tail;
    assert tail == c + ['-'] + hash;
    SegmentsAfterFirst(c, '-', hash);
    SegmentsWithoutDelimiter(hash, '-');
    StoiOfIntToString(commit, []);
    assert c + [] == c;
    ParseOfThreeParts(IntToString(year) + "." + IntToString(minor) + "." + tail, year, minor, tail);
  }

  /** `fromString(toDisplayString())` gives back year, minor and commit number (not the hash,
      which the display string leaves out) when the commit number is not negative. */
  lemma DisplayStringRoundTrip(v: Version)
    requires v.InRange() && v.commitNumber >= 0
    ensures ParseVersionString(v.ToDisplayString())
      == Parsed(VersionFields(v.year, v.minorNumber, v.commitNumber, ""))
  {
    var c := IntToString(v.commitNumber);
    DotParts3(IntToString(v.year), IntToString(v.minorNumber), c);
    SegmentsWithoutDelimiter(c, '-');
    StoiOfIntToString(v.commitNumber, []);
    assert c + [] == c;
    ParseOfThreeParts(v.ToDisplayString(), v.year, v.minorNumber, c);
  }

  /** With a negative commit number the display string does not read back: the commit's
      minus sign is taken for the '-' before the hash, the piece before it is empty, and
      `fromString` falls back to the default version. */
  lemma DisplayStringNegativeCommit(v: Version)
    requires v.InRange() && v.commitNumber < 0
    ensures ParseVersionString(v.ToDisplayString()) == InvalidArgumentThrown
  {
    var c := IntToString(v.commitNumber);
    DotParts3(IntToString(v.year), IntToString(v.minorNumber), c);
    assert c == [] + ['-'] + c[1..];
    SegmentsAfterFirst([], '-', c[1..]);
    StoiWithoutDigits([]);
    ParseOfThreeParts(v.ToDisplayString(), v.year, v.minorNumber, c);
  }

  /** `fromString(toShortString())` gives back year and minor number. */
  lemma ShortStringRoundTrip(v: Version)
    requires v.InRange()
    ensures ParseVersionString(v.ToShortString()) == Parsed(VersionFields(v.year, v.minorNumber, 0, ""))
  {
    var y, m := IntToString(v.year), IntToString(v.minorNumber);
    DotParts2(y, m);
    StoiOfIntToString(v.minorNumber, []);
    assert m + [] == m;
    ParseOfTwoParts(v.ToShortString(), v.year, m);
  }

  /** `toString` writes "year.minor-commit-hash", which is not the form `fromString` reads:
      the commit number is lost and comes back as 0, and so is the hash. */
  lemma ToStringLosesCommit(v: Version)
    requires v.InRange() && '.' !in v.commitHash
    ensures ParseVersionString(v.ToString()) == Parsed(VersionFields(v.year, v.minorNumber, 0, ""))
  {
    var m := IntToString(v.minorNumber);
    var rest := "-" + IntToString(v.commitNumber) + "-" + v.commitHash;
    ToStringShape(IntToString(v.year), m, IntToString(v.commitNumber), v.commitHash);
    StoiOfIntToString(v.minorNumber, rest);
    ParseOfTwoParts(v.ToString(), v.year, m + rest);
  }

  /** "y.m-c-h" splits at '.' into "y" and "m-c-h" when none of the pieces holds a '.'. */
  lemma ToStringShape(y: string, m: string, c: string, h: string)
    requires '.' !in y && '.' !in m && '.' !in c && '.' !in h
    ensures Segments(y + "." + m + "-" + c + "-" + h, ".") == [y, m + ("-" + c + "-" + h)]
  {
    RegroupAfterMinor(y, m, c, h);
    DotParts2(y, m + ("-" + c + "-" + h));
  }

  lemma RegroupAfterMinor(y: string, m: string, c: string, h: string)
    requires '.' !in m && '.' !in c && '.' !in h
    ensures y + "." + m + "-" + c + "-" + h == y + "." + (m + ("-" + c + "-" + h))
    ensures '.' !in m + ("-" + c + "-" + h)
  {
  }

  /** An empty version is never a valid one. */
  lemma EmptyIsNotValid(v: Version)
    ensures v.IsEmpty() ==> !v.IsValid()
  {
  }
}
