/**
 Joining a list of strings with a separator, the way Ruby's `Array#join`
 does for an array of strings, together with its inverse `Split` and the
 facts about order and separators that the error messages rely on.
 */
module Strings {
  import opened Wrappers

  /** True iff `s` begins with `prefix`. */
  predicate StartsWith(s: string, prefix: string) {
    |prefix| <= |s| && s[..|prefix|] == prefix
  }

  /** True iff `s` ends with `suffix`. */
  predicate EndsWith(s: string, suffix: string) {
    |suffix| <= |s| && s[|s| - |suffix|..] == suffix
  }

  /** `parts` concatenated in order, with `sep` between each pair of neighbours.
      The empty list joins to the empty string; otherwise the join opens with
      the first part and closes with the last. */
  function Join(parts: seq<string>, sep: string): (r: string)
    ensures |parts| == 0 ==> r == ""
    ensures |parts| > 0 ==> StartsWith(r, parts[0]) && EndsWith(r, parts[|parts| - 1])
    decreases |parts|
  {
    if |parts| == 0 then ""
    else if |parts| == 1 then parts[0]
    else parts[0] + sep + Join(parts[1..], sep)
  }

  /** The sum of the lengths of `parts`. */
  function TotalLength(parts: seq<string>): nat
    decreases |parts|
  {
    if |parts| == 0 then 0 else |parts[0]| + TotalLength(parts[1..])
  }

  /** The first position at which `sep` occurs in `s`, if any: `None` exactly
      when `sep` occurs nowhere in `s`. */
  function FindFirst(s: string, sep: string): (r: Option<nat>)
    requires |sep| > 0
    ensures r.Some? ==> OccursAt(s, sep, r.value)
    ensures r.Some? ==> forall j :: 0 <= j < r.value ==> !OccursAt(s, sep, j)
    ensures r.None? ==> Lacks(s, sep)
    decreases |s|
  {
    if |s| < |sep| then None
    else if s[..|sep|] == sep then Some(0)
    else
      assert !OccursAt(s, sep, 0) by { assert s[0..|sep|] == s[..|sep|]; }
      match FindFirst(s[1..], sep)
      case None =>
        assert Lacks(s, sep) by {
          forall j | 1 <= j <= |s| - |sep| ensures !OccursAt(s, sep, j) {
            ShiftOccurrence(s, sep, j - 1);
          }
        }
        None
      case Some(k) =>
        assert forall j :: 0 <= j < k + 1 ==> !OccursAt(s, sep, j) by {
          forall j | 1 <= j < k + 1 ensures !OccursAt(s, sep, j) {
            ShiftOccurrence(s, sep, j - 1);
          }
        }
        ShiftOccurrence(s, sep, k);
        Some(k + 1)
  }

  /** An occurrence at `k + 1` in `s` is an occurrence at `k` in its tail. */
  lemma ShiftOccurrence(s: string, sep: string, k: nat)
    requires |s| > 0
    ensures OccursAt(s, sep, k + 1) == OccursAt(s[1..], sep, k)
  {
    if k + 1 + |sep| <= |s| {
      assert s[k + 1..k + 1 + |sep|] == s[1..][k..k + |sep|];
    }
  }

  /** `s` cut at every occurrence of `sep`, scanning left to right. */
  function Split(s: string, sep: string): (r: seq<string>)
    requires |sep| > 0
    ensures |r| > 0
    decreases |s|
  {
    match FindFirst(s, sep)
    case None => [s]
    case Some(i) => [s[..i]] + Split(s[i + |sep|..], sep)
  }

  /** Regrouping `w + sep + (x + sep + z)`, one step of unfolding `Join`. */
  lemma Regroup(w: string, sep: string, x: string, z: string)
    ensures w + sep + (x + sep + z) == w + sep + x + sep + z
  {
  }

  /** Regrouping a concatenation of four strings. */
  lemma ConcatRegroup(w: string, x: string, y: string, z: string)
    ensures w + (x + y + z) == w + x + y + z
  {
  }

  /** Appending one part to a non-empty list appends the separator and that part. */
  lemma {:induction false} JoinSnoc(parts: seq<string>, p: string, sep: string)
    requires |parts| > 0
    ensures Join(parts + [p], sep) == Join(parts, sep) + sep + p
    decreases |parts|
  {
    if |parts| == 1 {
      assert parts + [p] == [parts[0], p];
      assert (parts + [p])[1..] == [p];
    } else {
      assert (parts + [p])[1..] == parts[1..] + [p];
      JoinSnoc(parts[1..], p, sep);
      Regroup(parts[0], sep, Join(parts[1..], sep), p);
    }
  }

  /** The joined string is exactly as long as its parts plus one separator
      per gap between neighbours. */
  lemma {:induction false} JoinLength(parts: seq<string>, sep: string)
    requires |parts| > 0
    ensures |Join(parts, sep)| == TotalLength(parts) + (|parts| - 1) * |sep|
    decreases |parts|
  {
    if |parts| > 1 {
      JoinLength(parts[1..], sep);
      assert Join(parts, sep) == parts[0] + sep + Join(parts[1..], sep);
      assert |parts[0] + sep + Join(parts[1..], sep)| == |parts[0]| + |sep| + |Join(parts[1..], sep)|;
      assert TotalLength(parts) == |parts[0]| + TotalLength(parts[1..]);
    }
  }

  /** `sep` occurs in `s` at position `j`. */
  predicate OccursAt(s: string, sep: string, j: int) {
    0 <= j && j + |sep| <= |s| && s[j..j + |sep|] == sep
  }

  /** `sep` occurs nowhere in `s`. */
  predicate Lacks(s: string, sep: string) {
    forall j :: 0 <= j <= |s| - |sep| ==> !OccursAt(s, sep, j)
  }

  /** No proper suffix of `sep` is also a prefix of it, so two occurrences of
      `sep` can never overlap. `", "` is such a separator. */
  predicate BorderFree(sep: string) {
    forall m :: 0 < m < |sep| ==> sep[m..] != sep[..|sep| - m]
  }

  /** Dropping the first character keeps a string free of `sep`. */
  lemma LacksTail(s: string, sep: string)
    requires |s| > 0 && Lacks(s, sep)
    ensures Lacks(s[1..], sep)
  {
    forall j ensures !OccursAt(s[1..], sep, j) {
      if 0 <= j && j + |sep| <= |s| - 1 {
        assert s[1..][j..j + |sep|] == s[j + 1..j + 1 + |sep|];
        assert !OccursAt(s, sep, j + 1);
      }
    }
  }

  /** A string free of `sep` yields no occurrence of it; this follows from
      the contract of `FindFirst`. */
  lemma NoOccurrenceNoMatch(s: string, sep: string)
    requires |sep| > 0 && Lacks(s, sep)
    ensures FindFirst(s, sep).None?
  {
  }

  /** When `p` is free of the border-free separator `sep`, the first `sep` in
      `p + sep + t` is the one right after `p`. */
  lemma {:induction false} FindAfterPart(p: string, sep: string, t: string)
    requires |sep| > 0 && BorderFree(sep) && Lacks(p, sep)
    ensures FindFirst(p + sep + t, sep) == Some(|p|)
    decreases |p|
  {
    var s := p + sep + t;
    if |p| == 0 {
      assert s[..|sep|] == sep;
    } else {
      if |p| >= |sep| {
        assert !OccursAt(p, sep, 0);
        assert s[..|sep|] == p[0..|sep|];
      } else {
        var m := |p|;
        assert s[..|sep|] == p + sep[..|sep| - m];
        assert sep[m..] != sep[..|sep| - m];
        assert (p + sep[..|sep| - m])[m..] == sep[..|sep| - m];
      }
      assert s[1..] == p[1..] + sep + t;
      LacksTail(p, sep);
      FindAfterPart(p[1..], sep, t);
    }
  }

  /** Splitting `p + sep + t` cuts off `p` first. */
  lemma SplitStep(p: string, sep: string, t: string)
    requires |sep| > 0 && BorderFree(sep) && Lacks(p, sep)
    ensures Split(p + sep + t, sep) == [p] + Split(t, sep)
  {
    var s := p + sep + t;
    FindAfterPart(p, sep, t);
    assert s[..|p|] == p;
    assert s[|p| + |sep|..] == t;
  }

  /** No element of `parts` contains `sep`. */
  predicate NoneContains(parts: seq<string>, sep: string) {
    forall i :: 0 <= i < |parts| ==> Lacks(parts[i], sep)
  }

  /** `Split` undoes `Join`: a non-empty list none of whose parts contains
      the border-free separator is recovered, in order, from its join. */
  lemma {:induction false} SplitJoin(parts: seq<string>, sep: string)
    requires |parts| > 0 && |sep| > 0 && BorderFree(sep)
    requires NoneContains(parts, sep)
    ensures Split(Join(parts, sep), sep) == parts
    decreases |parts|
  {
    assert Lacks(parts[0], sep);
    if |parts| == 1 {
      NoOccurrenceNoMatch(parts[0], sep);
    } else {
      var tail := parts[1..];
      assert NoneContains(tail, sep) by {
        forall i | 0 <= i < |tail| ensures Lacks(tail[i], sep) {
          assert tail[i] == parts[i + 1];
        }
      }
      SplitJoin(tail, sep);
      assert Join(parts, sep) == parts[0] + sep + Join(tail, sep);
      SplitStep(parts[0], sep, Join(tail, sep));
      assert parts == [parts[0]] + tail;
    }
  }

  /** Joining one more element of a prefix of `parts`. */
  lemma JoinPrefixStep(parts: seq<string>, sep: string, i: nat)
    requires 1 <= i < |parts|
    ensures Join(parts[..i + 1], sep) == Join(parts[..i], sep) + sep + parts[i]
  {
    assert parts[..i + 1] == parts[..i] + [parts[i]];
    JoinSnoc(parts[..i], parts[i], sep);
  }

  /** Ruby's `join` as a left-to-right loop; agrees with `Join` on every input. */
  method JoinLoop(parts: seq<string>, sep: string) returns (r: string)
    ensures r == Join(parts, sep)
  {
    if |parts| == 0 {
      return "";
    }
    r := parts[0];
    var i := 1;
    assert parts[..1] == [parts[0]];
    while i < |parts|
      invariant 1 <= i <= |parts|
      invariant r == Join(parts[..i], sep)
      decreases |parts| - i
    {
      JoinPrefixStep(parts, sep, i);
      r := r + sep + parts[i];
      i := i + 1;
    }
    assert parts[..i] == parts;
  }
}
