/**
 * String scanning used in place of the source's regular expressions and of
 * `trim`, `indexOf`, `lastIndexOf`, `startsWith` and `toLowerCase`.
 * Whitespace and case are ASCII only (see README, "Left out").
 */
module Text {
  import opened Wrappers

  /** The ASCII members of JavaScript's `\s` class, which `trim` also strips. */
  predicate IsSpace(c: char) {
    c == ' ' || c == '\t' || c == '\n' || c == '\r' || c == '\U{000B}' || c == '\U{000C}'
  }

  predicate AllSpaces(s: string) {
    forall k {:trigger IsSpace(s[k])} :: 0 <= k < |s| ==> IsSpace(s[k])
  }

  /** No leading and no trailing whitespace. */
  predicate IsTrimmed(s: string) {
    s == [] || (!IsSpace(s[0]) && !IsSpace(s[|s| - 1]))
  }

  /** The end of the run of whitespace that starts at `i` (what a greedy `\s*` consumes). */
  function SkipSpaces(s: string, i: nat): (j: nat)
    requires i <= |s|
    ensures i <= j <= |s|
    ensures forall k {:trigger IsSpace(s[k])} :: i <= k < j ==> IsSpace(s[k])
    ensures j < |s| ==> !IsSpace(s[j])
    decreases |s| - i
  {
    if i < |s| && IsSpace(s[i]) then SkipSpaces(s, i + 1) else i
  }

  /** The run of whitespace from `i` is determined: it ends at the first non-space. */
  lemma SkipSpacesIs(s: string, i: nat, j: nat)
    requires i <= j <= |s|
    requires forall k {:trigger IsSpace(s[k])} :: i <= k < j ==> IsSpace(s[k])
    requires j < |s| ==> !IsSpace(s[j])
    ensures SkipSpaces(s, i) == j
  {
  }

  /** Where the trailing run of whitespace of `s` begins. */
  function TrailingStart(s: string): (e: nat)
    ensures e <= |s|
    ensures forall k {:trigger IsSpace(s[k])} :: e <= k < |s| ==> IsSpace(s[k])
    ensures e > 0 ==> !IsSpace(s[e - 1])
  {
    SpacesBefore(s, 0, |s|)
  }

  /** The trailing run of whitespace is determined: it begins after the last non-space. */
  lemma TrailingStartIs(s: string, e: nat)
    requires e <= |s|
    requires forall k {:trigger IsSpace(s[k])} :: e <= k < |s| ==> IsSpace(s[k])
    requires e > 0 ==> !IsSpace(s[e - 1])
    ensures TrailingStart(s) == e
  {
  }

  /** The start of the run of whitespace that ends at `j`, going back no further than `lo`. */
  function SpacesBefore(s: string, lo: nat, j: nat): (e: nat)
    requires lo <= j <= |s|
    ensures lo <= e <= j
    ensures forall k {:trigger IsSpace(s[k])} :: e <= k < j ==> IsSpace(s[k])
    ensures e > lo ==> !IsSpace(s[e - 1])
    decreases j
  {
    if j > lo && IsSpace(s[j - 1]) then SpacesBefore(s, lo, j - 1) else j
  }

  /** JavaScript `s.trim()`: only leading and trailing whitespace is removed. */
  function Trim(s: string): (r: string)
    ensures IsTrimmed(r)
  {
    var i := SkipSpaces(s, 0);
    s[i..SpacesBefore(s, i, |s|)]
  }

  /**
   * Trim's result is determined by what it cuts off: whatever is left
   * after cutting whitespace off both ends, when it is itself trimmed, is
   * the trim.
   */
  lemma TrimUnique(a: string, r: string, b: string)
    requires AllSpaces(a) && AllSpaces(b) && IsTrimmed(r)
    ensures Trim(a + r + b) == r
  {
    var s := a + r + b;
    var i := SkipSpaces(s, 0);
    if r == [] {
      assert s == a + b;
      assert AllSpaces(s) by {
        forall k | 0 <= k < |s| ensures IsSpace(s[k]) {
          if k < |a| { assert s[k] == a[k]; } else { assert s[k] == b[k - |a|]; }
        }
      }
      assert i == |s|;
    } else {
      assert forall k :: 0 <= k < |a| ==> s[k] == a[k];
      assert s[|a|] == r[0];
      assert i == |a|;
      var last := |a| + |r| - 1;
      assert s[last] == r[|r| - 1];
      var e := SpacesBefore(s, i, |s|);
      assert forall k :: |a| + |r| <= k < |s| ==> s[k] == b[k - |a| - |r|];
      assert e == |a| + |r|;
      assert s[|a|..|a| + |r|] == r;
    }
  }

  lemma TrimOfTrimmed(s: string)
    requires IsTrimmed(s)
    ensures Trim(s) == s
  {
    TrimUnique("", s, "");
    assert "" + s + "" == s;
  }

  lemma TrimIdempotent(s: string)
    ensures Trim(Trim(s)) == Trim(s)
  {
    TrimOfTrimmed(Trim(s));
  }

  /** Trimming ignores whitespace added on either side. */
  lemma TrimPadded(pre: string, s: string, post: string)
    requires AllSpaces(pre) && AllSpaces(post)
    ensures Trim(pre + s + post) == Trim(s)
  {
    var a, b := TrimSplit(s);
    var r := Trim(s);
    PadSpaces(pre, a, b, post);
    Regroup(pre, a, r, b, post);
    TrimUnique(pre + a, r, b + post);
  }

  lemma Regroup(pre: string, a: string, r: string, b: string, post: string)
    ensures pre + (a + r + b) + post == (pre + a) + r + (b + post)
  {
  }

  lemma Assoc(a: string, b: string, c: string)
    ensures a + b + c == a + (b + c)
  {
  }

  /** Every string is its trim between two runs of whitespace. */
  lemma TrimSplit(s: string) returns (a: string, b: string)
    ensures s == a + Trim(s) + b && AllSpaces(a) && AllSpaces(b)
  {
    var i := SkipSpaces(s, 0);
    var e := SpacesBefore(s, i, |s|);
    a, b := s[..i], s[e..];
    assert s == a + s[i..e] + b;
    forall k | 0 <= k < |a| ensures IsSpace(a[k]) { assert a[k] == s[k]; }
    forall k | 0 <= k < |b| ensures IsSpace(b[k]) { assert b[k] == s[e + k]; }
  }

  lemma PadSpaces(pre: string, a: string, b: string, post: string)
    requires AllSpaces(pre) && AllSpaces(a) && AllSpaces(b) && AllSpaces(post)
    ensures AllSpaces(pre + a) && AllSpaces(b + post)
  {
    forall k | 0 <= k < |pre + a| ensures IsSpace((pre + a)[k]) {
      if k < |pre| { assert (pre + a)[k] == pre[k]; } else { assert (pre + a)[k] == a[k - |pre|]; }
    }
    forall k | 0 <= k < |b + post| ensures IsSpace((b + post)[k]) {
      if k < |b| { assert (b + post)[k] == b[k]; } else { assert (b + post)[k] == post[k - |b|]; }
    }
  }

  /** Three backticks, a Markdown code fence, at index `i`. */
  predicate FenceAt(s: string, i: nat) {
    i + 3 <= |s| && s[i] == '`' && s[i + 1] == '`' && s[i + 2] == '`'
  }

  /** The first fence at or after `from` (`s.indexOf("```", from)`). */
  function FindFence(s: string, from: nat): (r: Option<nat>)
    ensures r.Some? ==> from <= r.value && FenceAt(s, r.value)
    ensures r.Some? ==> forall k :: from <= k < r.value ==> !FenceAt(s, k)
    ensures r.None? ==> forall k :: from <= k ==> !FenceAt(s, k)
    decreases |s| - from
  {
    if from + 3 > |s| then None
    else if FenceAt(s, from) then Some(from)
    else FindFence(s, from + 1)
  }

  /** A fence with no earlier one at or after `from` is what the search finds. */
  lemma FindFenceIs(s: string, from: nat, at: nat)
    requires from <= at && FenceAt(s, at)
    requires forall k :: from <= k < at ==> !FenceAt(s, k)
    ensures FindFence(s, from) == Some(at)
  {
  }

  /** When `s[i..j]` does not trim to nothing, its leading spaces can be skipped first. */
  lemma TrimFromSkip(s: string, i: nat, j: nat)
    requires i <= j <= |s| && Trim(s[i..j]) != ""
    ensures SkipSpaces(s, i) < j
    ensures Trim(s[SkipSpaces(s, i)..j]) == Trim(s[i..j])
  {
    SkipStopsInside(s, i, j);
    var a := SkipSpaces(s, i);
    SkippedAreSpaces(s, i);
    SliceSplit(s, i, a, j);
    TrimLeftPadded(s[i..a], s[a..j]);
  }

  /** Two adjacent slices make up the slice over both. */
  lemma SliceSplit(s: string, i: nat, a: nat, j: nat)
    requires i <= a <= j <= |s|
    ensures s[i..a] + s[a..j] == s[i..j]
  {
  }

  /** What SkipSpaces passes over is whitespace. */
  lemma SkippedAreSpaces(s: string, i: nat)
    requires i <= |s|
    ensures AllSpaces(s[i..SkipSpaces(s, i)])
  {
    var sp := s[i..SkipSpaces(s, i)];
    forall k | 0 <= k < |sp| ensures IsSpace(sp[k]) {
      assert sp[k] == s[i + k];
    }
  }

  /** Trimming ignores whitespace added in front. */
  lemma TrimLeftPadded(pre: string, s: string)
    requires AllSpaces(pre)
    ensures Trim(pre + s) == Trim(s)
  {
    TrimPadded(pre, s, "");
    assert pre + s + "" == pre + s;
  }

  /** The spaces skipped from `i` stop before `j` when `s[i..j]` holds a non-space. */
  lemma SkipStopsInside(s: string, i: nat, j: nat)
    requires i <= j <= |s| && Trim(s[i..j]) != ""
    ensures SkipSpaces(s, i) < j
  {
    var t := s[i..j];
    var k := NonSpaceOf(t);
    assert t[k] == s[i + k];
    SkipStopsAt(s, i, i + k);
  }

  /** Skipping the leading whitespace, and adding some, does not change the trim. */
  lemma TrimAfterSkip(ws: string, s: string)
    requires AllSpaces(ws)
    ensures Trim(ws + s[SkipSpaces(s, 0)..]) == Trim(s)
  {
    var j := SkipSpaces(s, 0);
    var lead, rest := s[..j], s[j..];
    SkippedAreSpaces(s, 0);
    SplitAt(s, j);
    TrimLeftPadded(lead, rest);
    TrimLeftPadded(ws, rest);
  }

  lemma SplitAt(s: string, j: nat)
    requires j <= |s|
    ensures s[..j] + s[j..] == s
  {
  }

  /** What does not trim to nothing holds a non-space. */
  lemma NonSpaceOf(t: string) returns (k: nat)
    requires Trim(t) != ""
    ensures k < |t| && !IsSpace(t[k])
  {
    k := SkipSpaces(t, 0);
  }

  /** SkipSpaces stops no later than a non-space. */
  lemma {:induction false} SkipStopsAt(s: string, i: nat, m: nat)
    requires i <= m < |s| && !IsSpace(s[m])
    ensures SkipSpaces(s, i) <= m
    decreases m - i
  {
    if i < m && IsSpace(s[i]) {
      SkipStopsAt(s, i + 1, m);
    }
  }

  /** Whitespace alone trims to nothing. */
  lemma AllSpacesTrim(s: string)
    requires AllSpaces(s)
    ensures Trim(s) == ""
  {
  }

  /** Whitespace holds no backtick. */
  lemma SpacesNoBacktick(s: string)
    requires AllSpaces(s)
    ensures '`' !in s
  {
    forall k | 0 <= k < |s| ensures s[k] != '`' {
      assert IsSpace(s[k]);
    }
  }

  /** `s.indexOf(c)`, with None for -1. */
  function IndexOf(s: string, c: char): (r: Option<nat>)
    ensures r.Some? ==> r.value < |s| && s[r.value] == c
    ensures r.Some? ==> forall k :: 0 <= k < r.value ==> s[k] != c
    ensures r.None? <==> c !in s
  {
    if s == [] then None
    else if s[0] == c then Some(0)
    else
      var r := IndexOf(s[1..], c);
      assert s == [s[0]] + s[1..];
      if r.None? then None else Some(r.value + 1)
  }

  /** The first occurrence is what IndexOf finds. */
  lemma IndexOfIs(s: string, c: char, i: nat)
    requires i < |s| && s[i] == c
    requires forall k :: 0 <= k < i ==> s[k] != c
    ensures IndexOf(s, c) == Some(i)
  {
    var r := IndexOf(s, c);
    assert r.Some? by { assert s[i] in s; }
  }

  /** `s.lastIndexOf(c)`, with None for -1. */
  function LastIndexOf(s: string, c: char): (r: Option<nat>)
    ensures r.Some? ==> r.value < |s| && s[r.value] == c
    ensures r.Some? ==> forall k :: r.value < k < |s| ==> s[k] != c
    ensures r.None? <==> c !in s
  {
    if s == [] then None
    else if s[|s| - 1] == c then Some(|s| - 1)
    else
      var r := LastIndexOf(s[..|s| - 1], c);
      assert s == s[..|s| - 1] + [s[|s| - 1]];
      r
  }

  /** The last occurrence is what LastIndexOf finds. */
  lemma LastIndexOfIs(s: string, c: char, i: nat)
    requires i < |s| && s[i] == c
    requires forall k :: i < k < |s| ==> s[k] != c
    ensures LastIndexOf(s, c) == Some(i)
  {
    var r := LastIndexOf(s, c);
    assert r.Some? by { assert s[i] in s; }
  }

  /**
   * The first "{" and the last "}" of `s`, when both exist and the "}" comes
   * later; this is both `indexOf("{")`/`lastIndexOf("}")` with `last > first`
   * and the greedy match of `/\{[\s\S]*\}/`.
   */
  function BraceSpan(s: string): (r: Option<(nat, nat)>)
    ensures r.Some? ==> r.value.0 < r.value.1 < |s|
    ensures r.Some? ==> s[r.value.0] == '{' && forall k :: 0 <= k < r.value.0 ==> s[k] != '{'
    ensures r.Some? ==> s[r.value.1] == '}' && forall k :: r.value.1 < k < |s| ==> s[k] != '}'
  {
    var f := IndexOf(s, '{');
    var l := LastIndexOf(s, '}');
    if f.Some? && l.Some? && l.value > f.value then Some((f.value, l.value)) else None
  }

  /** There is a span exactly when some "{" comes before some "}". */
  lemma BraceSpanExists(s: string)
    ensures BraceSpan(s).Some? <==> exists i, j :: 0 <= i < j < |s| && s[i] == '{' && s[j] == '}'
  {
    var f := IndexOf(s, '{');
    var l := LastIndexOf(s, '}');
    if f.Some? && l.Some? && l.value > f.value {
      assert s[f.value] == '{' && s[l.value] == '}';
    }
  }

  /** A "{" before a "}" means there is a span, and it reaches at least from the one to the other. */
  lemma BraceSpanCovers(s: string, i: nat, j: nat)
    requires i < j < |s| && s[i] == '{' && s[j] == '}'
    ensures BraceSpan(s).Some? && BraceSpan(s).value.0 <= i && j <= BraceSpan(s).value.1
  {
    var f := IndexOf(s, '{');
    var l := LastIndexOf(s, '}');
    assert f.Some? by { assert s[i] in s; }
    assert l.Some? by { assert s[j] in s; }
    assert f.value <= i;
    assert j <= l.value;
  }

  predicate StartsWith(s: string, prefix: string) {
    |prefix| <= |s| && s[..|prefix|] == prefix
  }

  function LowerChar(c: char): char {
    if 'A' <= c <= 'Z' then (c as int + 32) as char else c
  }

  /** ASCII `toLowerCase`. */
  function ToLower(s: string): (r: string)
    ensures |r| == |s| && forall k :: 0 <= k < |s| ==> r[k] == LowerChar(s[k])
  {
    seq(|s|, k requires 0 <= k < |s| => LowerChar(s[k]))
  }
}
