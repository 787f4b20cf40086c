/** `std::string::find` and the `split` helper of the version utility
    (src/lib_license/utility/Version.cpp:7-23). */
module StringUtility {
  import opened Wrappers

  /** `d` occurs in `s` starting at index `i`. */
  predicate OccursAt(s: string, d: string, i: int) {
    0 <= i && i + |d| <= |s| && s[i..i + |d|] == d
  }

  /** `d` occurs somewhere in `s`. */
  predicate Contains(s: string, d: string) {
    exists i | 0 <= i <= |s| :: OccursAt(s, d, i)
  }

  /** `s.find(d, from)`: the first occurrence of `d` at or after `from`; `None` is `npos`. */
  function IndexOf(s: string, d: string, from: nat): (r: Option<nat>)
    decreases |s| - from
    ensures r.Some? ==> from <= r.value && OccursAt(s, d, r.value)
    ensures r.Some? ==> forall i :: from <= i < r.value ==> !OccursAt(s, d, i)
    ensures r.None? ==> forall i :: from <= i ==> !OccursAt(s, d, i)
  {
    if from + |d| > |s| then None
    else if s[from..from + |d|] == d then Some(from)
    else IndexOf(s, d, from + 1)
  }

  /** Searching the suffix `s[k..]` finds the same occurrences, shifted by `k`. */
  lemma {:induction false} IndexOfSuffix(s: string, d: string, k: nat, j: nat)
    requires k <= |s|
    decreases |s| - (k + j)
    ensures IndexOf(s, d, k + j).None? <==> IndexOf(s[k..], d, j).None?
    ensures IndexOf(s, d, k + j).Some? ==> IndexOf(s, d, k + j).value == IndexOf(s[k..], d, j).value + k
  {
    var t := s[k..];
    if k + j + |d| > |s| {
    } else {
      assert s[k + j..k + j + |d|] == t[j..j + |d|];
      if s[k + j..k + j + |d|] != d {
        IndexOfSuffix(s, d, k, j + 1);
      }
    }
  }

  /** The parts `split(s, d)` produces, defined on the suffix after each delimiter. */
  function Segments(s: string, d: string): (parts: seq<string>)
    requires |d| > 0
    decreases |s|
    ensures |parts| >= 1
  {
    match IndexOf(s, d, 0)
    case None => [s]
    case Some(p) => [s[..p]] + Segments(s[p + |d|..], d)
  }

  /** One unfolding of `Segments`. */
  lemma SegmentsUnfold(t: string, d: string)
    requires |d| > 0
    ensures IndexOf(t, d, 0).None? ==> Segments(t, d) == [t]
    ensures IndexOf(t, d, 0).Some? ==>
      var q := IndexOf(t, d, 0).value;
      Segments(t, d) == [t[..q]] + Segments(t[q + |d|..], d)
  {
  }

  /** One step of `split` from `from`: the parts of the rest of the string are the text up to
      the next delimiter followed by the parts after it, or the rest itself when none is left. */
  lemma SegmentsFrom(s: string, d: string, from: nat)
    requires |d| > 0 && from <= |s|
    ensures IndexOf(s, d, from).None? ==> Segments(s[from..], d) == [s[from..]]
    ensures IndexOf(s, d, from).Some? ==>
      var p := IndexOf(s, d, from).value;
      Segments(s[from..], d) == [s[from..p]] + Segments(s[p + |d|..], d)
  {
    var rest := s[from..];
    IndexOfSuffix(s, d, from, 0);
    SegmentsUnfold(rest, d);
    var r := IndexOf(s, d, from);
    if r.Some? {
      var q := r.value - from;
      assert rest[..q] == s[from..r.value];
      assert rest[q + |d|..] == s[r.value + |d|..];
    }
  }

  /** The do-while loop of `split`: find the next delimiter from `oldPos`, push the text
      before it (the rest of the string when there is none), step past it. */
  method Split(s: string, d: string) returns (parts: seq<string>)
    requires |d| > 0
    ensures parts == Segments(s, d)
  {
    var pos: Option<nat>;
    var oldPos: nat := 0;
    parts := [];
    while true
      invariant oldPos <= |s|
      invariant parts + Segments(s[oldPos..], d) == Segments(s, d)
      decreases |s| - oldPos
    {
      pos := IndexOf(s, d, oldPos);
      var end := if pos.Some? then pos.value else |s|;
      SegmentsFrom(s, d, oldPos);
      ghost var before := parts;
      parts := parts + [s[oldPos..end]];
      if pos.None? {
        assert s[oldPos..end] == s[oldPos..];
        assert parts == before + Segments(s[oldPos..], d);
        break;
      }
      assert parts + Segments(s[end + |d|..], d) == before + Segments(s[oldPos..], d);
      oldPos := end + |d|;
    }
  }

  /** Parts joined back together with the delimiter between them. */
  function Join(parts: seq<string>, d: string): string
    requires |parts| >= 1
  {
    if |parts| == 1 then parts[0] else parts[0] + d + Join(parts[1..], d)
  }

  /** Joining the parts of `split` with its delimiter gives back the input. */
  lemma {:induction false} JoinSegments(s: string, d: string)
    requires |d| > 0
    decreases |s|
    ensures Join(Segments(s, d), d) == s
  {
    SegmentsUnfold(s, d);
    var r := IndexOf(s, d, 0);
    if r.Some? {
      var p := r.value;
      var tail := s[p + |d|..];
      JoinSegments(tail, d);
      assert s == s[..p] + d + tail;
    }
  }

  /** No part of `split` contains the delimiter. */
  lemma {:induction false} SegmentsAvoidDelimiter(s: string, d: string)
    requires |d| > 0
    decreases |s|
    ensures forall k :: 0 <= k < |Segments(s, d)| ==> !Contains(Segments(s, d)[k], d)
  {
    match IndexOf(s, d, 0)
    case None =>
      forall i | OccursAt(s, d, i) ensures false {
      }
    case Some(p) =>
      SegmentsAvoidDelimiter(s[p + |d|..], d);
      var head := s[..p];
      forall i | OccursAt(head, d, i) ensures false {
        assert head[i..i + |d|] == s[i..i + |d|];
        assert OccursAt(s, d, i);
      }
      var parts := Segments(s, d);
      assert parts == [head] + Segments(s[p + |d|..], d);
      forall k | 0 <= k < |parts| ensures !Contains(parts[k], d) {
        if k > 0 {
          assert parts[k] == Segments(s[p + |d|..], d)[k - 1];
        }
      }
  }

  /** The number of non-overlapping occurrences of `d` in `s`, scanning left to right. */
  function Count(s: string, d: string): nat
    requires |d| > 0
    decreases |s|
  {
    if |s| < |d| then 0
    else if s[..|d|] == d then 1 + Count(s[|d|..], d)
    else Count(s[1..], d)
  }

  /** `Count` skips straight to the first occurrence that `find` reports. */
  lemma {:induction false} CountFromFirstOccurrence(s: string, d: string)
    requires |d| > 0
    decreases |s|
    ensures IndexOf(s, d, 0).None? ==> Count(s, d) == 0
    ensures IndexOf(s, d, 0).Some? ==>
      var p := IndexOf(s, d, 0).value; Count(s, d) == 1 + Count(s[p + |d|..], d)
  {
    if |s| >= |d| {
      assert s[0..|d|] == s[..|d|];
      if s[..|d|] != d {
        CountPastMismatch(s, d);
      }
    }
  }

  /** When `s` does not start with `d`, both the search and the count move on by one. */
  lemma {:induction false} CountPastMismatch(s: string, d: string)
    requires |d| > 0 && |s| >= |d| && s[..|d|] != d
    decreases |s|, 0
    ensures IndexOf(s, d, 0).None? ==> Count(s, d) == 0
    ensures IndexOf(s, d, 0).Some? ==>
      var p := IndexOf(s, d, 0).value; Count(s, d) == 1 + Count(s[p + |d|..], d)
  {
    var t := s[1..];
    assert s[0..|d|] == s[..|d|];
    assert IndexOf(s, d, 0) == IndexOf(s, d, 1);
    assert Count(s, d) == Count(t, d);
    IndexOfSuffix(s, d, 1, 0);
    CountFromFirstOccurrence(t, d);
    if IndexOf(t, d, 0).Some? {
      var q := IndexOf(t, d, 0).value;
      assert t[q + |d|..] == s[q + 1 + |d|..];
    }
  }

  /** `split` yields one more part than there are non-overlapping occurrences of the delimiter. */
  lemma {:induction false} SegmentCount(s: string, d: string)
    requires |d| > 0
    decreases |s|
    ensures |Segments(s, d)| == 1 + Count(s, d)
  {
    CountFromFirstOccurrence(s, d);
    SegmentsUnfold(s, d);
    var r := IndexOf(s, d, 0);
    if r.Some? {
      SegmentCount(s[r.value + |d|..], d);
    }
  }

  /** A string without the one-character delimiter `c` splits into itself. */
  lemma SegmentsWithoutDelimiter(a: string, c: char)
    requires c !in a
    ensures Segments(a, [c]) == [a]
  {
    forall i | 0 <= i < |a| ensures !OccursAt(a, [c], i) {
      assert a[i..i + 1] == [a[i]];
    }
  }

  /** A string whose first occurrence of `c` ends the prefix `a` splits into `a`
      followed by the parts of what comes after. */
  lemma SegmentsAfterFirst(a: string, c: char, b: string)
    requires c !in a
    ensures Segments(a + [c] + b, [c]) == [a] + Segments(b, [c])
  {
    var s := a + [c] + b;
    assert s[|a|..|a| + 1] == [c];
    assert OccursAt(s, [c], |a|);
    forall i | 0 <= i < |a| ensures !OccursAt(s, [c], i) {
      assert s[i..i + 1] == [a[i]];
    }
    var r := IndexOf(s, [c], 0);
    assert r.Some?;
    assert r.value == |a|;
    assert s[..|a|] == a;
    assert s[|a| + 1..] == b;
  }
}
