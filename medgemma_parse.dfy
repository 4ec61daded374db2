/**
 * The tolerant normaliser of model output (server/medgemmaParse.ts):
 * `ParseMedGemmaContent` takes any string and always returns a
 * `MedGemmaParsed` record. It extracts a JSON-looking chunk, strips fence
 * markers, parses (a failure becomes `{}`), and maps alias keys onto the
 * five canonical fields.
 *
 * `parse` stands for `JSON.parse`: `None` is a thrown SyntaxError.
 */
module MedGemmaParse {
  import opened Wrappers
  import opened JsonValues
  import opened Text

  const Fence: string := "```"

  datatype MedGemmaParsed = MedGemmaParsed(
    condition: string,
    explanation: string,
    causes: seq<string>,
    steps: seq<string>,
    doctor: Option<string>)

  /** What every field defaults to. */
  const EmptyResult := MedGemmaParsed("", "", [], [], None)

  /** No triple backtick anywhere in `s`. */
  predicate FenceFree(s: string) {
    forall k :: 0 <= k < |s| ==> !FenceAt(s, k)
  }

  /** A case-insensitive "json" at index `i`. */
  predicate JsonTagAt(s: string, i: nat) {
    && i + 4 <= |s|
    && LowerChar(s[i]) == 'j' && LowerChar(s[i + 1]) == 's'
    && LowerChar(s[i + 2]) == 'o' && LowerChar(s[i + 3]) == 'n'
  }

  lemma JsonTagHasNoBacktick(s: string, i: nat, k: nat)
    requires JsonTagAt(s, i) && i <= k < i + 4
    ensures s[k] != '`'
  {
  }

  // ---------------------------------------------------------------------
  // extractJsonChunk
  // ---------------------------------------------------------------------

  /**
   * The capture group of `/```(?:json)?\s*([\s\S]*?)```/i`, as the bounds
   * [a, q) of `text`. The match starts at the first "```"; the optional tag
   * and the run of whitespace are taken greedily, and the group ends at the
   * first "```" after them (lazy). When no closing "```" follows, no later
   * opening can succeed either, so there is no match.
   */
  function FenceGroup(text: string): (r: Option<(nat, nat)>)
    ensures r.Some? ==>
      && FindFence(text, 0).Some?
      && FindFence(text, 0).value + 3 <= r.value.0 <= r.value.1
      && FenceAt(text, r.value.1)
      && (forall k :: r.value.0 <= k < r.value.1 ==> !FenceAt(text, k))
  {
    var p := FindFence(text, 0);
    if p.None? then None
    else
      var open: nat := p.value + 3;
      var afterTag: nat := if JsonTagAt(text, open) then open + 4 else open;
      var a: nat := SkipSpaces(text, afterTag);
      var q := FindFence(text, a);
      if q.None? then None else Some((a, q.value))
  }

  /**
   * The fence regular expression matches exactly when some "```" is
   * followed, without overlapping it, by another.
   */
  lemma FenceGroupExists(text: string)
    ensures FenceGroup(text).Some? <==>
      exists i: nat, j: nat :: FenceAt(text, i) && FenceAt(text, j) && i + 3 <= j
  {
    var p := FindFence(text, 0);
    if p.Some? {
      var open: nat := p.value + 3;
      var afterTag: nat := if JsonTagAt(text, open) then open + 4 else open;
      var a: nat := SkipSpaces(text, afterTag);
      var q := FindFence(text, a);
      if q.Some? {
        assert FenceAt(text, p.value) && FenceAt(text, q.value);
      } else {
        // Nothing between the opening and `a` is a backtick.
        assert forall j :: open <= j < a ==> text[j] != '`' by {
          forall j | open <= j < a ensures text[j] != '`' {
            if j < afterTag { JsonTagHasNoBacktick(text, open, j); } else { assert IsSpace(text[j]); }
          }
        }
        forall i: nat, j: nat | FenceAt(text, i) && FenceAt(text, j) ensures j < i + 3 {
          assert p.value <= i;
        }
      }
    }
  }

  /**
   * extractJsonChunk: the trimmed group of the first fenced block when that
   * group is not empty; otherwise the inclusive span from the first "{" to
   * the last "}"; otherwise the trimmed text.
   */
  function ExtractJsonChunk(text: string): (r: string)
    ensures match FenceGroup(text)
      case Some((a, q)) => a < q ==> r == Trim(text[a..q])
      case None => true
    ensures (FenceGroup(text).None? || FenceGroup(text).value.0 == FenceGroup(text).value.1) ==>
      match BraceSpan(text)
      case Some((f, l)) => r == text[f..l + 1] && r[0] == '{' && r[|r| - 1] == '}'
      case None => r == Trim(text)
  {
    var g := FenceGroup(text);
    if g.Some? && g.value.0 < g.value.1 then Trim(text[g.value.0..g.value.1])
    else
      match BraceSpan(text)
      case Some((f, l)) => text[f..l + 1]
      case None => Trim(text)
  }

  /**
   * A fenced block is what the chunk is made of, whatever comes before it
   * (if it holds no backtick) and whatever comes after it, braces included.
   * `tag` is the optional "json" tag in any case; untagged, a body that
   * itself starts with "json" would lose it to the tag.
   */
  lemma {:induction false} FencedBlockIsChunk(pre: string, tag: string, body: string, post: string)
    requires '`' !in pre && '`' !in body
    requires tag == "" || (|tag| == 4 && JsonTagAt(tag, 0))
    requires tag == "" ==> !JsonTagAt(body, 0)
    requires Trim(body) != ""
    ensures ExtractJsonChunk(pre + Fence + tag + body + Fence + post) == Trim(body)
  {
    var text := pre + Fence + tag + body + Fence + post;
    BlockLayout(pre, tag, body, post);
    TagTest(text, |pre| + 3, tag, body);
    LayoutIsChunk(text, |pre|, |tag|, body);
  }

  /**
   * The chunk of a text whose first fence is at `p`, followed by a tag of
   * `tagLen` characters, a body without backticks and a closing fence.
   */
  lemma LayoutIsChunk(text: string, p: nat, tagLen: nat, body: string)
    requires p + 3 + tagLen + |body| + 3 <= |text|
    requires forall k :: 0 <= k < p ==> text[k] != '`'
    requires FenceAt(text, p)
    requires JsonTagAt(text, p + 3) <==> tagLen == 4
    requires tagLen == 0 || tagLen == 4
    requires text[p + 3 + tagLen..p + 3 + tagLen + |body|] == body
    requires '`' !in body && Trim(body) != ""
    requires FenceAt(text, p + 3 + tagLen + |body|)
    ensures ExtractJsonChunk(text) == Trim(body)
  {
    var bodyStart: nat := p + 3 + tagLen;
    FirstFenceAt(text, p);
    ClosingAfterBody(text, bodyStart, body, bodyStart);
    FencedChunk(text, p, bodyStart, bodyStart + |body|, body);
  }

  /** Where the pieces of a fenced block sit in the text they make up. */
  lemma BlockLayout(pre: string, tag: string, body: string, post: string)
    requires '`' !in pre
    ensures var text := pre + Fence + tag + body + Fence + post;
      && |pre| + 3 + |tag| + |body| + 3 <= |text|
      && (forall k :: 0 <= k < |pre| ==> text[k] != '`')
      && FenceAt(text, |pre|)
      && text[|pre| + 3..|pre| + 3 + |tag|] == tag
      && text[|pre| + 3 + |tag|..|pre| + 3 + |tag| + |body|] == body
      && FenceAt(text, |pre| + 3 + |tag| + |body|)
  {
    var text := pre + Fence + tag + body + Fence + post;
    var p: nat := |pre|;
    var open: nat := p + 3;
    var bodyStart: nat := open + |tag|;
    var close: nat := bodyStart + |body|;
    forall k | 0 <= k < p ensures text[k] != '`' {
      assert text[k] == pre[k];
    }
    assert text[p..p + 3] == Fence;
    forall k | 0 <= k < |tag| ensures text[open + k] == tag[k] { }
    assert text[open..bodyStart] == tag;
    forall k | 0 <= k < |body| ensures text[bodyStart + k] == body[k] { }
    assert text[bodyStart..close] == body;
    assert text[close..close + 3] == Fence;
  }

  /**
   * Once the first fence is at `p` and the next one at `q`, at or after
   * where its tag ends, the chunk is what lies between them, trimmed.
   */
  lemma FencedChunk(text: string, p: nat, bodyStart: nat, q: nat, body: string)
    requires FindFence(text, 0) == Some(p)
    requires bodyStart == if JsonTagAt(text, p + 3) then p + 7 else p + 3
    requires bodyStart <= q && FindFence(text, bodyStart) == Some(q)
    requires text[bodyStart..q] == body && Trim(body) != ""
    ensures ExtractJsonChunk(text) == Trim(body)
  {
    TrimFromSkip(text, bodyStart, q);
    GroupBeforeClose(text, p, bodyStart, q);
    FencedGroupIsChunk(text, SkipSpaces(text, bodyStart), q);
  }

  /** The group runs from the end of the spaces after the tag to the closing fence. */
  lemma GroupBeforeClose(text: string, p: nat, bodyStart: nat, q: nat)
    requires FindFence(text, 0) == Some(p)
    requires bodyStart == if JsonTagAt(text, p + 3) then p + 7 else p + 3
    requires bodyStart <= |text| && SkipSpaces(text, bodyStart) <= q
    requires FindFence(text, bodyStart) == Some(q)
    ensures FenceGroup(text).Some?
    ensures FenceGroup(text).value.0 == SkipSpaces(text, bodyStart) && FenceGroup(text).value.1 == q
  {
    FindFenceIs(text, SkipSpaces(text, bodyStart), q);
    FenceGroupFrom(text, p, SkipSpaces(text, bodyStart), q);
  }

  /** FenceGroup's result from the two searches it makes. */
  lemma FenceGroupFrom(text: string, p: nat, a: nat, q: nat)
    requires FindFence(text, 0) == Some(p)
    requires a == SkipSpaces(text, if JsonTagAt(text, p + 3) then p + 7 else p + 3)
    requires FindFence(text, a) == Some(q)
    ensures FenceGroup(text).Some? && FenceGroup(text).value.0 == a && FenceGroup(text).value.1 == q
  {
  }

  lemma FencedGroupIsChunk(text: string, a: nat, q: nat)
    requires FenceGroup(text).Some? && FenceGroup(text).value.0 == a && FenceGroup(text).value.1 == q
    requires a < q
    ensures ExtractJsonChunk(text) == Trim(text[a..q])
  {
  }

  /** With no backtick before it, the fence at `p` is the first one. */
  lemma FirstFenceAt(text: string, p: nat)
    requires FenceAt(text, p) && forall k :: 0 <= k < p ==> text[k] != '`'
    ensures FindFence(text, 0) == Some(p)
  {
    forall k | 0 <= k < p ensures !FenceAt(text, k) {
      if k + 3 <= |text| { assert text[k..k + 3][0] == text[k]; }
    }
    FindFenceIs(text, 0, p);
  }

  /** The tag test at `open` sees `tag`, or, untagged, the start of `body` followed by a backtick. */
  lemma TagTest(text: string, open: nat, tag: string, body: string)
    requires tag == "" || JsonTagAt(tag, 0)
    requires tag == "" ==> !JsonTagAt(body, 0)
    requires open + |tag| + |body| < |text|
    requires text[open..open + |tag|] == tag && text[open + |tag|..open + |tag| + |body|] == body
    requires text[open + |tag| + |body|] == '`'
    ensures JsonTagAt(text, open) <==> tag != ""
  {
    if tag == "" {
      forall k | 0 <= k < |body| ensures text[open + k] == body[k] {
        assert text[open..open + |body|][k] == body[k];
      }
    } else {
      forall k | 0 <= k < 4 ensures text[open + k] == tag[k] {
        assert text[open..open + 4][k] == tag[k];
      }
    }
  }

  /** A body without backticks ends at the fence that follows it. */
  lemma ClosingAfterBody(text: string, bodyStart: nat, body: string, a: nat)
    requires bodyStart <= a <= bodyStart + |body| <= |text|
    requires text[bodyStart..bodyStart + |body|] == body && '`' !in body
    requires FenceAt(text, bodyStart + |body|)
    ensures FindFence(text, a) == Some(bodyStart + |body|)
  {
    forall k | a <= k < bodyStart + |body| ensures !FenceAt(text, k) {
      assert text[k] == body[k - bodyStart];
      if k + 3 <= |text| { assert text[k..k + 3][0] == text[k]; }
    }
    FindFenceIs(text, a, bodyStart + |body|);
  }

  /**
   * Without backticks, JSON wrapped in prose is recovered exactly: the
   * chunk runs from the first "{" to the last "}".
   */
  lemma {:induction false} ProseWrappedIsChunk(pre: string, obj: string, post: string)
    requires '`' !in pre + obj + post
    requires '{' !in pre && '}' !in post
    requires |obj| >= 2 && obj[0] == '{' && obj[|obj| - 1] == '}'
    ensures ExtractJsonChunk(pre + obj + post) == obj
  {
    var text := pre + obj + post;
    NoBacktickNoGroup(text);
    ProseBraces(pre, obj, post);
    MiddleSlice(pre, obj, post);
  }

  /** Without a backtick there is no fenced block. */
  lemma NoBacktickNoGroup(text: string)
    requires '`' !in text
    ensures FenceGroup(text).None?
  {
    forall i: nat | i < |text| ensures !FenceAt(text, i) {
      assert text[i] in text;
    }
  }

  /** The braces of the object are the first "{" and the last "}" of the text around it. */
  lemma ProseBraces(pre: string, obj: string, post: string)
    requires '{' !in pre && '}' !in post
    requires |obj| >= 2 && obj[0] == '{' && obj[|obj| - 1] == '}'
    ensures BraceSpan(pre + obj + post) == Some((|pre|, |pre| + |obj| - 1))
  {
    var text := pre + obj + post;
    var f, l := |pre|, |pre| + |obj| - 1;
    forall k | 0 <= k < f ensures text[k] != '{' {
      assert text[k] == pre[k];
      assert pre[k] in pre;
    }
    forall k | l < k < |text| ensures text[k] != '}' {
      assert text[k] == post[k - |pre| - |obj|];
      assert post[k - |pre| - |obj|] in post;
    }
    IndexOfIs(text, '{', f);
    LastIndexOfIs(text, '}', l);
  }

  lemma MiddleSlice(pre: string, obj: string, post: string)
    ensures (pre + obj + post)[|pre|..|pre| + |obj|] == obj
  {
  }

  // ---------------------------------------------------------------------
  // stripCodeFences
  // ---------------------------------------------------------------------

  /** "```json" in any case at index `i`. */
  predicate JsonMarkerAt(s: string, i: nat) {
    FenceAt(s, i) && JsonTagAt(s, i + 3)
  }

  /**
   * `.replace(/```json\s*\/gi, "")`: every marker with the whitespace after
   * it is removed, scanning left to right without rescanning the result.
   */
  function RemoveJsonMarkers(s: string): (r: string)
    ensures |r| <= |s|
    decreases |s|
  {
    if JsonMarkerAt(s, 0) then RemoveJsonMarkers(s[SkipSpaces(s, 7)..])
    else if s == [] then []
    else [s[0]] + RemoveJsonMarkers(s[1..])
  }

  /** Without any fence there is no marker to remove. */
  lemma {:induction false} MarkerFreeUnchanged(s: string)
    requires FenceFree(s)
    ensures RemoveJsonMarkers(s) == s
    decreases |s|
  {
    if s != [] {
      forall k | 0 <= k < |s[1..]| ensures !FenceAt(s[1..], k) {
        assert !FenceAt(s, k + 1);
      }
      MarkerFreeUnchanged(s[1..]);
    }
  }

  /** `.replace(/```\s*$/gi, "")`: a fence followed only by whitespace at the end. */
  function RemoveTrailingFence(s: string): (r: string)
    ensures FenceFree(s) ==> r == s
  {
    var e := TrailingStart(s);
    if e >= 3 && FenceAt(s, e - 3) then s[..e - 3] else s
  }

  /** The trailing replacement only cuts a fence and the whitespace after it off the end. */
  lemma TrailingFenceShape(s: string)
    ensures |RemoveTrailingFence(s)| <= |s|
    ensures RemoveTrailingFence(s) == s[..|RemoveTrailingFence(s)|]
    ensures RemoveTrailingFence(s) != s ==>
      && FenceAt(s, |RemoveTrailingFence(s)|)
      && AllSpaces(s[|RemoveTrailingFence(s)| + 3..])
  {
    var e := TrailingStart(s);
    if e >= 3 && FenceAt(s, e - 3) {
      SuffixSpaces(s, e);
    }
  }

  lemma SuffixSpaces(s: string, e: nat)
    requires e <= |s| && forall k {:trigger IsSpace(s[k])} :: e <= k < |s| ==> IsSpace(s[k])
    ensures AllSpaces(s[e..])
  {
    forall k | 0 <= k < |s| - e ensures IsSpace(s[e..][k]) {
      assert s[e..][k] == s[e + k];
    }
  }

  /** `.replace(/^\s*```/gi, "")`: leading whitespace and a fence at the start. */
  function RemoveLeadingFence(s: string): (r: string)
    ensures FenceFree(s) ==> r == s
  {
    var b := SkipSpaces(s, 0);
    if FenceAt(s, b) then s[b + 3..] else s
  }

  /** The leading replacement only cuts whitespace and a fence off the start. */
  lemma LeadingFenceShape(s: string)
    ensures |RemoveLeadingFence(s)| <= |s|
    ensures RemoveLeadingFence(s) == s[|s| - |RemoveLeadingFence(s)|..]
    ensures RemoveLeadingFence(s) != s ==>
      && |s| - |RemoveLeadingFence(s)| >= 3
      && FenceAt(s, |s| - |RemoveLeadingFence(s)| - 3)
      && AllSpaces(s[..|s| - |RemoveLeadingFence(s)| - 3])
  {
    SkippedAreSpaces(s, 0);
  }

  /** stripCodeFences: the three replacements, then `trim`. */
  function StripCodeFences(text: string): (r: string)
    ensures IsTrimmed(r)
  {
    Trim(RemoveLeadingFence(RemoveTrailingFence(RemoveJsonMarkers(text))))
  }

  /** On a text without fences, stripping them only trims it. */
  lemma StripFenceFree(text: string)
    requires FenceFree(text)
    ensures StripCodeFences(text) == Trim(text)
  {
    MarkerFreeUnchanged(text);
  }

  /**
   * Example: removing the markers does not always leave the text free of
   * them, as a removal can join its neighbours into a new "```json".
   */
  lemma StripCanLeaveMarker()
    ensures StripCodeFences("a```j```jsonson") == "a```json"
    ensures JsonMarkerAt(StripCodeFences("a```j```jsonson"), 1)
  {
    MarkersJoined();
    JoinedNoTrailingFence();
    JoinedNoLeadingFence();
    StripSteps("a```j```jsonson", "a```json");
    assert JsonMarkerAt("a```json", 1);
  }

  /** When no replacement after the first changes its result, stripping ends there. */
  lemma StripSteps(s: string, m: string)
    requires RemoveJsonMarkers(s) == m && IsTrimmed(m)
    requires RemoveTrailingFence(m) == m && RemoveLeadingFence(m) == m
    ensures StripCodeFences(s) == m
  {
    TrimOfTrimmed(m);
  }

  lemma JoinedNoTrailingFence()
    ensures RemoveTrailingFence("a```json") == "a```json"
  {
    var s := "a```json";
    assert TrailingStart(s) == 8;
    FenceNeeds(s, 5, 5);
  }

  lemma JoinedNoLeadingFence()
    ensures RemoveLeadingFence("a```json") == "a```json"
  {
    var s := "a```json";
    assert SkipSpaces(s, 0) == 0;
    FenceNeeds(s, 0, 0);
  }

  /**
   * The marker removal on the example, one leading character at a time:
   * "a", three backticks and "j" are kept, the marker "```json" goes.
   */
  lemma MarkersJoined()
    ensures RemoveJsonMarkers("a```j```jsonson") == "a```json"
  {
    var m := "```json" + "son";
    var s4 := "j" + m;
    var s3 := "`" + s4;
    var s2 := "`" + s3;
    var s1 := "`" + s2;
    var s0 := "a" + s1;
    MarkerRemoved();
    KeepStep('j', m, "son");
    KeepStep('`', s4, "j" + "son");
    KeepStep('`', s3, "`" + ("j" + "son"));
    InnerNotMarker(s2);
    KeepStep('`', s2, "`" + ("`" + ("j" + "son")));
    KeepStep('a', s1, "`" + ("`" + ("`" + ("j" + "son"))));
    ExampleSpelled();
  }

  /** The example input and output, spelled as the pieces above. */
  lemma ExampleSpelled()
    ensures "a```j```jsonson" == "a" + ("`" + ("`" + ("`" + ("j" + ("```json" + "son")))))
    ensures "a```json" == "a" + ("`" + ("`" + ("`" + ("j" + "son"))))
  {
  }

  lemma InnerNotMarker(s2: string)
    requires s2 == "`" + ("`" + ("j" + ("```json" + "son")))
    ensures !JsonMarkerAt("`" + s2, 0)
  {
    assert ("`" + s2)[4] == '`';
  }

  lemma MarkerRemoved()
    ensures RemoveJsonMarkers("```json" + "son") == "son"
  {
    var s := "```json" + "son";
    assert JsonMarkerAt(s, 0);
    assert SkipSpaces(s, 7) == 7;
    assert s[7..] == "son";
    assert FenceFree("son");
    MarkerFreeUnchanged("son");
  }

  /** A character that does not start a marker is kept. */
  lemma KeepStep(c: char, t: string, out: string)
    requires !JsonMarkerAt([c] + t, 0) && RemoveJsonMarkers(t) == out
    ensures RemoveJsonMarkers([c] + t) == [c] + out
  {
    assert ([c] + t)[1..] == t;
  }

  lemma FenceNeeds(s: string, i: nat, k: nat)
    requires i <= k < i + 3 && k < |s|
    ensures FenceAt(s, i) ==> s[k] == '`'
  {
    if i + 3 <= |s| { assert s[i..i + 3][k - i] == s[k]; }
  }

  /** Dropping the first character shifts every marker position by one. */
  lemma MarkerShift(c: char, t: string, k: nat)
    ensures JsonMarkerAt([c] + t, k + 1) <==> JsonMarkerAt(t, k)
  {
    var s := [c] + t;
    assert forall j :: 0 <= j < |t| ==> s[j + 1] == t[j];
  }

  /** A prefix in which no marker starts is kept as it is. */
  lemma {:induction false} KeepPrefix(a: string, rest: string)
    requires forall k :: 0 <= k < |a| ==> !JsonMarkerAt(a + rest, k)
    ensures RemoveJsonMarkers(a + rest) == a + RemoveJsonMarkers(rest)
    decreases |a|
  {
    if a != [] {
      var t := a[1..] + rest;
      assert a + rest == [a[0]] + t;
      forall k | 0 <= k < |a[1..]| ensures !JsonMarkerAt(t, k) {
        assert !JsonMarkerAt(a + rest, k + 1);
        MarkerShift(a[0], t, k);
      }
      KeepPrefix(a[1..], rest);
      KeepStep(a[0], t, a[1..] + RemoveJsonMarkers(rest));
      assert [a[0]] + (a[1..] + RemoveJsonMarkers(rest)) == a + RemoveJsonMarkers(rest);
    } else {
      assert a + rest == rest;
    }
  }

  /** A marker starts with a backtick, so a prefix without one is kept. */
  lemma NoBacktickKept(a: string, rest: string)
    requires '`' !in a
    ensures RemoveJsonMarkers(a + rest) == a + RemoveJsonMarkers(rest)
  {
    forall k | 0 <= k < |a| ensures !JsonMarkerAt(a + rest, k) {
      assert (a + rest)[k] == a[k];
      assert a[k] in a;
    }
    KeepPrefix(a, rest);
  }

  /**
   * No marker starts inside a fence-free prefix of a fence: the last two
   * positions would need a "j" where the fence has a backtick.
   */
  lemma FenceFreeBeforeFence(a: string, u: string)
    requires FenceFree(a)
    ensures forall k :: 0 <= k < |a| ==> !JsonMarkerAt(a + Fence + u, k)
  {
    var s := a + Fence + u;
    forall k | 0 <= k < |a| ensures !JsonMarkerAt(s, k) {
      if k + 3 <= |a| {
        assert s[k] == a[k] && s[k + 1] == a[k + 1] && s[k + 2] == a[k + 2];
        assert !FenceAt(a, k);
      } else {
        assert s[k + 3] == '`';
      }
    }
  }

  /**
   * "```json" in any case is removed with the whitespace after it; the
   * fence-free text before it is kept.
   */
  lemma MarkerDropped(a: string, tag: string, t: string)
    requires FenceFree(a)
    requires |tag| == 4 && JsonTagAt(tag, 0)
    ensures RemoveJsonMarkers(a + Fence + tag + t) == a + RemoveJsonMarkers(t[SkipSpaces(t, 0)..])
  {
    var u := tag + t;
    assert a + Fence + tag + t == a + (Fence + u) == a + Fence + u;
    FenceFreeBeforeFence(a, u);
    KeepPrefix(a, Fence + u);
    var v := Fence + u;
    assert v[3..7] == tag;
    assert JsonMarkerAt(v, 0);
    var j := SkipSpaces(t, 0);
    assert forall k :: 0 <= k < |t| ==> v[7 + k] == t[k];
    SkipSpacesIs(v, 7, 7 + j);
    assert v[7 + j..] == t[j..];
  }

  /** Whitespace, then a fence: the leading replacement removes both. */
  lemma LeadingFenceDropped(ws: string, t: string)
    requires AllSpaces(ws)
    ensures RemoveLeadingFence(ws + Fence + t) == t
  {
    var s := ws + Fence + t;
    assert forall k :: 0 <= k < |ws| ==> s[k] == ws[k];
    assert s[|ws|] == '`';
    SkipSpacesIs(s, 0, |ws|);
    assert FenceAt(s, |ws|);
    assert s[|ws| + 3..] == t;
  }

  /** A fence, then whitespace to the end: the trailing replacement removes both. */
  lemma TrailingFenceDropped(t: string, ws: string)
    requires AllSpaces(ws)
    ensures RemoveTrailingFence(t + Fence + ws) == t
  {
    var s := t + Fence + ws;
    var e := |t| + 3;
    assert forall k :: e <= k < |s| ==> s[k] == ws[k - e];
    assert s[e - 1] == '`';
    TrailingStartIs(s, e);
    assert FenceAt(s, |t|);
    assert s[..|t|] == t;
  }

  /** A closing fence followed by whitespace holds no marker. */
  lemma ClosingFenceKept(ws: string)
    requires AllSpaces(ws)
    ensures RemoveJsonMarkers(Fence + ws) == Fence + ws
  {
    var s := Fence + ws;
    forall k | 0 <= k < |s| ensures !JsonMarkerAt(s, k) {
      if k >= 3 {
        assert s[k] == ws[k - 3] && IsSpace(ws[k - 3]);
      } else if 3 < |s| {
        assert s[3] == ws[0] && IsSpace(ws[0]);
      }
    }
    assert s + "" == s;
    KeepPrefix(s, "");
  }

  /** After a prefix of length at least four, the tag test sees only the prefix. */
  lemma TagExtended(x: string, y: string)
    requires !JsonTagAt(x, 0)
    requires y != [] && (y[0] == '`' || IsSpace(y[0]))
    ensures !JsonTagAt(x + y, 0)
  {
    var s := x + y;
    if |x| >= 4 {
      assert s[0] == x[0] && s[1] == x[1] && s[2] == x[2] && s[3] == x[3];
    } else if |s| >= 4 {
      assert s[|x|] == y[0];
    }
  }

  /** After an untagged opening fence no marker starts before the text `x` that follows it. */
  lemma UntaggedOpening(ws0: string, x: string)
    requires AllSpaces(ws0) && !JsonTagAt(x, 0)
    requires |x| >= 3 && (x[0] == '`' ==> x[1] == '`' && x[2] == '`')
    ensures RemoveJsonMarkers(ws0 + Fence + x) == ws0 + Fence + RemoveJsonMarkers(x)
  {
    var a := ws0 + Fence;
    var s := a + x;
    assert forall k :: 0 <= k < |ws0| ==> s[k] == ws0[k];
    assert forall i :: 0 <= i < |x| ==> s[|a| + i] == x[i];
    forall k | 0 <= k < |a| ensures !JsonMarkerAt(s, k) {
      if k < |ws0| {
        assert IsSpace(ws0[k]);
      }
    }
    KeepPrefix(a, x);
  }

  /** Text without backticks has no fence. */
  lemma NoBacktickFenceFree(s: string)
    requires '`' !in s
    ensures FenceFree(s)
  {
    forall k | 0 <= k < |s| ensures s[k] != '`' {
      assert s[k] in s;
    }
  }

  /** A slice of text without backticks has none either. */
  lemma NoBacktickSlice(s: string, j: nat)
    requires '`' !in s && j <= |s|
    ensures '`' !in s[j..]
  {
    forall k | 0 <= k < |s| - j ensures s[j..][k] != '`' {
      assert s[j..][k] == s[j + k];
      assert s[j + k] in s;
    }
  }

  /** An untagged fenced block holds no marker. */
  lemma UntaggedMarkers(ws0: string, y: string, ws3: string)
    requires AllSpaces(ws0) && AllSpaces(ws3) && '`' !in y
    requires !JsonTagAt(y + Fence + ws3, 0)
    ensures RemoveJsonMarkers(ws0 + Fence + y + Fence + ws3) == (ws0 + Fence + y) + Fence + ws3
  {
    var tail := Fence + ws3;
    var x := y + tail;
    Assoc(y, Fence, ws3);
    if y != [] { assert x[0] == y[0] && y[0] in y; }
    UntaggedOpening(ws0, x);
    NoBacktickKept(y, tail);
    ClosingFenceKept(ws3);
    Assoc(ws0 + Fence, y, tail);
    Assoc(ws0 + Fence + y, Fence, ws3);
  }

  /** An untagged fenced block: the three replacements leave the text between the fences. */
  lemma StripUntagged(ws0: string, y: string, ws3: string)
    requires AllSpaces(ws0) && AllSpaces(ws3) && '`' !in y
    requires !JsonTagAt(y + Fence + ws3, 0)
    ensures RemoveLeadingFence(RemoveTrailingFence(RemoveJsonMarkers(ws0 + Fence + y + Fence + ws3))) == y
  {
    UntaggedMarkers(ws0, y, ws3);
    TrailingFenceDropped(ws0 + Fence + y, ws3);
    LeadingFenceDropped(ws0, y);
  }

  /** In a block tagged "json" the marker goes with the whitespace after it. */
  lemma TaggedMarkers(ws0: string, tag: string, y: string, ws3: string)
    requires AllSpaces(ws0) && AllSpaces(ws3) && '`' !in y[SkipSpaces(y, 0)..]
    requires |tag| == 4 && JsonTagAt(tag, 0)
    ensures RemoveJsonMarkers(ws0 + Fence + tag + y + Fence + ws3)
      == (ws0 + y[SkipSpaces(y, 0)..]) + Fence + ws3
  {
    var tail := Fence + ws3;
    var x := y + tail;
    var j := SkipSpaces(y, 0);
    Assoc(ws0 + Fence + tag + y, Fence, ws3);
    Assoc(ws0 + Fence + tag, y, tail);
    SpacesNoBacktick(ws0);
    NoBacktickFenceFree(ws0);
    MarkerDropped(ws0, tag, x);
    SkipThroughText(y, tail);
    RestKept(y[j..], ws3);
    Assoc(ws0, y[j..], tail);
    Assoc(ws0 + y[j..], Fence, ws3);
  }

  /** Text without backticks, a fence and whitespace hold no marker. */
  lemma RestKept(z: string, ws: string)
    requires '`' !in z && AllSpaces(ws)
    ensures RemoveJsonMarkers(z + (Fence + ws)) == z + (Fence + ws)
  {
    NoBacktickKept(z, Fence + ws);
    ClosingFenceKept(ws);
  }

  /** Skipping whitespace into a text that a backtick follows stops inside the text. */
  lemma SkipThroughText(y: string, tail: string)
    requires tail != [] && tail[0] == '`'
    ensures SkipSpaces(y + tail, 0) == SkipSpaces(y, 0)
    ensures (y + tail)[SkipSpaces(y, 0)..] == y[SkipSpaces(y, 0)..] + tail
  {
    var x := y + tail;
    var j := SkipSpaces(y, 0);
    assert forall k :: 0 <= k < |y| ==> x[k] == y[k];
    assert x[|y|] == '`';
    SkipSpacesIs(x, 0, j);
  }

  /**
   * A block tagged "json": the marker and the closing fence go, and what
   * is left trims like the text between the fences.
   */
  lemma StripTagged(ws0: string, tag: string, y: string, ws3: string)
    requires AllSpaces(ws0) && AllSpaces(ws3) && '`' !in y
    requires |tag| == 4 && JsonTagAt(tag, 0)
    ensures StripCodeFences(ws0 + Fence + tag + y + Fence + ws3) == Trim(y)
  {
    var p := ws0 + y[SkipSpaces(y, 0)..];
    NoBacktickSlice(y, SkipSpaces(y, 0));
    TaggedMarkers(ws0, tag, y, ws3);
    TrailingFenceDropped(p, ws3);
    SpacesNoBacktick(ws0);
    NoBacktickFenceFree(p);
    TrimAfterSkip(ws0, y);
  }

  /** The pieces of a fenced block, regrouped around the text between the fences. */
  lemma BlockSpelled(p: string, ws1: string, body: string, ws2: string, ws3: string)
    ensures p + ws1 + body + ws2 + Fence + ws3 == p + (ws1 + body + ws2) + Fence + ws3
    ensures ws1 + body + ws2 + Fence + ws3 == (ws1 + body) + (ws2 + Fence + ws3)
  {
    Assoc(p + ws1, body, ws2);
    Assoc(p, ws1, body + ws2);
    Assoc(ws1, body, ws2);
    Assoc(ws1 + body + ws2, Fence, ws3);
    Assoc(ws1 + body, ws2, Fence + ws3);
    Assoc(ws2, Fence, ws3);
  }

  /**
   * The reply format stripped end to end: whitespace, a fence, an optional
   * "json" tag in any case, the body, a fence and whitespace leave the
   * trimmed body.
   */
  lemma StripFencedBlock(ws0: string, tag: string, ws1: string, body: string, ws2: string, ws3: string)
    requires AllSpaces(ws0) && AllSpaces(ws1) && AllSpaces(ws2) && AllSpaces(ws3)
    requires '`' !in body
    requires tag == "" || (|tag| == 4 && JsonTagAt(tag, 0))
    requires tag == "" ==> !JsonTagAt(ws1 + body, 0)
    ensures StripCodeFences(ws0 + Fence + tag + ws1 + body + ws2 + Fence + ws3) == Trim(body)
  {
    var y := ws1 + body + ws2;
    SpacesNoBacktick(ws1);
    SpacesNoBacktick(ws2);
    assert '`' !in y;
    TrimPadded(ws1, body, ws2);
    BlockSpelled(ws0 + Fence + tag, ws1, body, ws2, ws3);
    if tag == "" {
      assert ws0 + Fence + tag == ws0 + Fence;
      BlockSpelled(ws1, [], body, ws2, ws3);
      assert [] + body == body;
      TagExtended(ws1 + body, ws2 + Fence + ws3);
      StripUntagged(ws0, y, ws3);
    } else {
      StripTagged(ws0, tag, y, ws3);
    }
  }

  /**
   * Example: a body free of fences is not enough for the lemma above. Its
   * "``" completes a fence with the opening one, and the "json" after it
   * becomes a marker that takes the whitespace with it.
   */
  lemma FenceFreeBodyNotEnough()
    ensures FenceFree("``json x")
    ensures StripCodeFences(Fence + "``json x" + Fence) == "``x"
  {
    ExampleBodyFenceFree();
    ExampleMarkerDropped();
    TrailingFenceDropped("``x", "");
    assert "``x" + Fence + "" == "``x" + Fence;
    ExampleNoLeadingFence();
    TrimOfTrimmed("``x");
  }

  /** The example's body has no fence: from its third character on there is no backtick. */
  lemma ExampleBodyFenceFree()
    ensures FenceFree("``json x")
  {
    var s := "``json x";
    assert forall j :: 2 <= j < |s| ==> s[j] != '`';
  }

  /** In the example, the opening fence and the body's "``json " are removed as one marker. */
  lemma ExampleMarkerDropped()
    ensures RemoveJsonMarkers(Fence + "``json x" + Fence) == "``x" + Fence
  {
    var t := " x" + Fence;
    assert Fence + "``json x" + Fence == "``" + Fence + "json" + t;
    MarkerDropped("``", "json", t);
    assert t[SkipSpaces(t, 0)..] == "x" + Fence;
    NoBacktickKept("x", Fence);
    ClosingFenceKept("");
    assert Fence + "" == Fence;
  }

  /** What is left of the example has no leading fence. */
  lemma ExampleNoLeadingFence()
    ensures RemoveLeadingFence("``x") == "``x"
  {
    assert SkipSpaces("``x", 0) == 0;
  }



  // ---------------------------------------------------------------------
  // tryJsonParse and normalizeKeys
  // ---------------------------------------------------------------------

  /** `tryJsonParse(jsonish) ?? {}`: a failure and a parsed `null` both become `{}`. */
  function ParsedOrEmpty(parse: string -> Option<Json>, jsonish: string): (r: Json)
    ensures r != JNull
    ensures parse(jsonish).Some? && parse(jsonish).value != JNull ==> r == parse(jsonish).value
    ensures Nullish(parse(jsonish)) ==> r == JObj(map[])
  {
    var v := parse(jsonish);
    if v.Some? && v.value != JNull then v.value else JObj(map[])
  }

  const ConditionKeys: seq<string> := ["condition", "diagnosis", "prediction"]
  const ExplanationKeys: seq<string> := ["explanation", "summary", "description"]
  const CausesKeys: seq<string> := ["causes[]", "causes", "possible_causes"]
  const StepsKeys: seq<string> := ["steps[]", "steps", "recommendations", "next_steps"]
  const DoctorKeys: seq<string> := ["doctor", "specialist", "referral"]

  /** `obj[k1] ?? obj[k2] ?? ...`: the first alias that is neither undefined nor null. */
  function Coalesce(obj: Json, keys: seq<string>): (r: Option<Json>)
    ensures r.Some? ==> r.value != JNull
  {
    if keys == [] then None
    else if !Nullish(Get(obj, keys[0])) then Get(obj, keys[0])
    else Coalesce(obj, keys[1..])
  }

  /**
   * The chain yields the value of some alias all of whose predecessors are
   * nullish, and it is undefined exactly when every alias is nullish.
   */
  lemma {:induction false} CoalescePicks(obj: Json, keys: seq<string>)
    ensures Coalesce(obj, keys).Some? ==> exists i :: (0 <= i < |keys| && Get(obj, keys[i]) == Coalesce(obj, keys) &&
      forall j :: 0 <= j < i ==> Nullish(Get(obj, keys[j])))
    ensures Coalesce(obj, keys).None? <==> forall i :: 0 <= i < |keys| ==> Nullish(Get(obj, keys[i]))
  {
    if keys != [] && Nullish(Get(obj, keys[0])) {
      var rest := keys[1..];
      CoalescePicks(obj, rest);
      assert forall i :: 1 <= i < |keys| ==> keys[i] == rest[i - 1];
      if Coalesce(obj, rest).Some? {
        var i :| 0 <= i < |rest| && Get(obj, rest[i]) == Coalesce(obj, rest) &&
          forall j :: 0 <= j < i ==> Nullish(Get(obj, rest[j]));
        assert Get(obj, keys[i + 1]) == Coalesce(obj, keys);
      }
    }
  }

  /** The first non-nullish alias decides the chain, whatever the later ones hold. */
  lemma {:induction false} FirstPresentAliasWins(obj: Json, keys: seq<string>, i: nat)
    requires i < |keys| && !Nullish(Get(obj, keys[i]))
    requires forall j :: 0 <= j < i ==> Nullish(Get(obj, keys[j]))
    ensures Coalesce(obj, keys) == Get(obj, keys[i])
  {
    if i > 0 {
      assert Nullish(Get(obj, keys[0]));
      assert keys[1..][i - 1] == keys[i];
      FirstPresentAliasWins(obj, keys[1..], i - 1);
    }
  }

  /**
   * `String` returns on the value a chain picks. Absent and falsy values
   * are never converted (`|| ""` and `toArray` replace them first); an
   * array is converted element by element by `.map(String)`.
   */
  predicate Converts(v: Option<Json>) {
    Defined(v) ==> Stringable(v.value)
  }

  /** `String(v || "").trim()`: a falsy or absent value gives "". */
  function ScalarField(v: Option<Json>): (r: string)
    requires Converts(v)
    ensures IsTrimmed(r)
    ensures !Defined(v) ==> r == ""
    ensures Defined(v) ==> r == Trim(ToStr(v.value).value)
  {
    if Defined(v) then Trim(StringOf(v.value)) else ""
  }

  /** `toArray(v)`: an array as it is, a truthy scalar as `[String(v)]`, anything else `[]`. */
  function ToArray(v: Option<Json>): (r: seq<Json>)
    requires Defined(v) && !v.value.JArr? ==> Stringable(v.value)
    ensures v.Some? && v.value.JArr? ==> r == v.value.items
    ensures Defined(v) && !v.value.JArr? ==> r == [JStr(ToStr(v.value).value)]
    ensures !Defined(v) ==> r == []
  {
    if v.Some? && v.value.JArr? then v.value.items
    else if Defined(v) then [JStr(StringOf(v.value))]
    else []
  }

  /** `toArray(v).map(String)`. */
  function ListField(v: Option<Json>): (r: seq<string>)
    requires Converts(v)
    ensures |r| == |ToArray(v)|
    ensures forall i :: 0 <= i < |r| ==> ToStr(ToArray(v)[i]) == Some(r[i])
  {
    var items := ToArray(v);
    seq(|items|, i requires 0 <= i < |items| => StringOf(items[i]))
  }

  /** `doctor ? String(doctor).trim() : undefined`. */
  function DoctorField(v: Option<Json>): (r: Option<string>)
    requires Converts(v)
    ensures r.None? <==> !Defined(v)
    ensures r.Some? ==> IsTrimmed(r.value) && r.value == Trim(ToStr(v.value).value)
  {
    if Defined(v) then Some(Trim(StringOf(v.value))) else None
  }

  /** Every value normalisation passes to `String` converts without a TypeError. */
  predicate Normalizable(obj: Json) {
    && Converts(Coalesce(obj, ConditionKeys)) && Converts(Coalesce(obj, ExplanationKeys))
    && Converts(Coalesce(obj, CausesKeys)) && Converts(Coalesce(obj, StepsKeys))
    && Converts(Coalesce(obj, DoctorKeys))
  }

  /** The record normalizeKeys builds when no conversion throws. */
  function Normalized(obj: Json): (r: MedGemmaParsed)
    requires Normalizable(obj)
    ensures IsTrimmed(r.condition) && IsTrimmed(r.explanation)
    ensures r.doctor.Some? ==> IsTrimmed(r.doctor.value)
    ensures r.doctor.None? <==> !Defined(Coalesce(obj, DoctorKeys))
    ensures |r.causes| == |ToArray(Coalesce(obj, CausesKeys))|
    ensures |r.steps| == |ToArray(Coalesce(obj, StepsKeys))|
  {
    MedGemmaParsed(
      ScalarField(Coalesce(obj, ConditionKeys)),
      ScalarField(Coalesce(obj, ExplanationKeys)),
      ListField(Coalesce(obj, CausesKeys)),
      ListField(Coalesce(obj, StepsKeys)),
      DoctorField(Coalesce(obj, DoctorKeys)))
  }

  /**
   * normalizeKeys: alias every canonical field and coerce its value; None
   * when one of the five conversions throws.
   */
  function NormalizeKeys(obj: Json): (r: Option<MedGemmaParsed>)
    ensures r.Some? <==> Normalizable(obj)
    ensures r.Some? ==> IsTrimmed(r.value.condition) && IsTrimmed(r.value.explanation)
    ensures r.Some? ==> (r.value.doctor.Some? ==> IsTrimmed(r.value.doctor.value))
    ensures r.Some? ==> (r.value.doctor.None? <==> !Defined(Coalesce(obj, DoctorKeys)))
  {
    if Normalizable(obj) then Some(Normalized(obj)) else None
  }

  /** An object none of whose values holds its own "toString" key where `String` looks. */
  predicate FieldsStringable(v: Json) {
    v.JObj? ==> forall k :: k in v.fields ==> Stringable(v.fields[k])
  }

  /** Whatever an alias chain picks from such an object converts. */
  lemma ChainConverts(obj: Json, keys: seq<string>)
    requires FieldsStringable(obj)
    ensures Converts(Coalesce(obj, keys))
  {
    var c := Coalesce(obj, keys);
    CoalescePicks(obj, keys);
    if c.Some? {
      var i :| 0 <= i < |keys| && Get(obj, keys[i]) == c &&
        forall j :: 0 <= j < i ==> Nullish(Get(obj, keys[j]));
      assert c.value == obj.fields[keys[i]];
    }
  }

  /** Without an own "toString" key among its values, normalisation never throws. */
  lemma StringableNormalizes(obj: Json)
    requires FieldsStringable(obj)
    ensures Normalizable(obj)
  {
    ChainConverts(obj, ConditionKeys);
    ChainConverts(obj, ExplanationKeys);
    ChainConverts(obj, CausesKeys);
    ChainConverts(obj, StepsKeys);
    ChainConverts(obj, DoctorKeys);
  }

  /**
   * A condition that is an object with its own "toString" key makes
   * `String(condition || "")` throw, so normalisation fails.
   */
  lemma OwnToStringThrows(obj: Json, m: map<string, Json>)
    requires Get(obj, "condition") == Some(JObj(m)) && "toString" in m
    ensures NormalizeKeys(obj).None?
  {
    FirstPresentAliasWins(obj, ConditionKeys, 0);
  }

  /** Example: an alias that is present wins over the later ones. */
  lemma FirstAliasExample()
    ensures NormalizeKeys(JObj(map["condition" := JStr("Acne"), "diagnosis" := JStr("Rosacea")])).Some?
    ensures NormalizeKeys(JObj(map["condition" := JStr("Acne"), "diagnosis" := JStr("Rosacea")])).value.condition == "Acne"
  {
    var obj := JObj(map["condition" := JStr("Acne"), "diagnosis" := JStr("Rosacea")]);
    StringableNormalizes(obj);
    FirstPresentAliasWins(obj, ConditionKeys, 0);
    ScalarRoundTrip("Acne");
  }

  /** Example: a null alias is skipped. */
  lemma NullAliasExample()
    ensures NormalizeKeys(JObj(map["condition" := JNull, "diagnosis" := JStr("Rosacea")])).Some?
    ensures NormalizeKeys(JObj(map["condition" := JNull, "diagnosis" := JStr("Rosacea")])).value.condition == "Rosacea"
  {
    var obj := JObj(map["condition" := JNull, "diagnosis" := JStr("Rosacea")]);
    StringableNormalizes(obj);
    FirstPresentAliasWins(obj, ConditionKeys, 1);
    ScalarRoundTrip("Rosacea");
  }

  /** Example: an empty string is present, so it hides the later alias. */
  lemma EmptyAliasExample()
    ensures NormalizeKeys(JObj(map["summary" := JStr(""), "description" := JStr("Red skin")])).Some?
    ensures NormalizeKeys(JObj(map["summary" := JStr(""), "description" := JStr("Red skin")])).value.explanation == ""
  {
    var obj := JObj(map["summary" := JStr(""), "description" := JStr("Red skin")]);
    StringableNormalizes(obj);
    FirstPresentAliasWins(obj, ExplanationKeys, 1);
  }

  /**
   * A falsy value under the first alias that is present (false, 0 or "")
   * hides every later alias: `??` only skips undefined and null, and
   * `|| ""` then turns the value into "".
   */
  lemma FalsyAliasHidesLater(obj: Json, keys: seq<string>, i: nat)
    requires i < |keys| && Get(obj, keys[i]).Some?
    requires !Truthy(Get(obj, keys[i]).value) && Get(obj, keys[i]).value != JNull
    requires forall j :: 0 <= j < i ==> Nullish(Get(obj, keys[j]))
    ensures Converts(Coalesce(obj, keys))
    ensures ScalarField(Coalesce(obj, keys)) == ""
    ensures ListField(Coalesce(obj, keys)) == []
    ensures DoctorField(Coalesce(obj, keys)).None?
  {
    FirstPresentAliasWins(obj, keys, i);
  }

  /** With every alias nullish, normalisation gives the defaults. */
  lemma NothingPresentIsEmpty(obj: Json)
    requires forall k :: Nullish(Get(obj, k))
    ensures NormalizeKeys(obj) == Some(EmptyResult)
  {
    CoalescePicks(obj, ConditionKeys);
    CoalescePicks(obj, ExplanationKeys);
    CoalescePicks(obj, CausesKeys);
    CoalescePicks(obj, StepsKeys);
    CoalescePicks(obj, DoctorKeys);
  }

  /** Only objects have the alias keys: any other parsed value gives the defaults. */
  lemma NonObjectIsEmpty(v: Json)
    requires !v.JObj?
    ensures NormalizeKeys(v) == Some(EmptyResult)
  {
    NothingPresentIsEmpty(v);
  }

  /** An array keeps its length and order, each element passed through `String`. */
  lemma ArrayFieldKeepsOrder(items: seq<Json>, i: nat)
    requires Stringable(JArr(items)) && i < |items|
    ensures |ListField(Some(JArr(items)))| == |items|
    ensures Some(ListField(Some(JArr(items)))[i]) == ToStr(items[i])
  {
  }

  /** A truthy scalar becomes a one-element list; it is not trimmed. */
  lemma ScalarBecomesList(v: Json)
    requires Truthy(v) && !v.JArr? && Stringable(v)
    ensures ListField(Some(v)) == [ToStr(v).value]
  {
    assert ToArray(Some(v)) == [JStr(ToStr(v).value)];
  }

  /** A doctor that is present but only whitespace is kept, as "". */
  lemma BlankDoctorKept(obj: Json, blank: string)
    requires blank != "" && AllSpaces(blank)
    requires Get(obj, "doctor") == Some(JStr(blank))
    ensures DoctorField(Coalesce(obj, DoctorKeys)) == Some("")
    ensures NormalizeKeys(obj).Some? ==> NormalizeKeys(obj).value.doctor == Some("")
  {
    FirstPresentAliasWins(obj, DoctorKeys, 0);
    AllSpacesTrim(blank);
  }

  /** A list of strings as a JSON array. */
  function Strings(xs: seq<string>): (r: seq<Json>)
    ensures |r| == |xs| && forall i :: 0 <= i < |xs| ==> r[i] == JStr(xs[i])
  {
    seq(|xs|, i requires 0 <= i < |xs| => JStr(xs[i]))
  }

  /** A record written out as the JSON object the model is asked to reply with. */
  function ToJson(r: MedGemmaParsed): (j: Json)
    ensures FieldsStringable(j)
  {
    var base := map[
      "condition" := JStr(r.condition), "explanation" := JStr(r.explanation),
      "causes" := JArr(Strings(r.causes)), "steps" := JArr(Strings(r.steps))];
    assert Stringable(JArr(Strings(r.causes))) && Stringable(JArr(Strings(r.steps)));
    JObj(if r.doctor.Some? then base["doctor" := JStr(r.doctor.value)] else base)
  }

  /** What normalisation can produce and read back: trimmed strings, a non-empty doctor. */
  predicate Canonical(r: MedGemmaParsed) {
    && IsTrimmed(r.condition) && IsTrimmed(r.explanation)
    && (r.doctor.Some? ==> r.doctor.value != "" && IsTrimmed(r.doctor.value))
  }

  /** Scalar fields read back as themselves. */
  lemma ScalarRoundTrip(s: string)
    requires IsTrimmed(s)
    ensures ScalarField(Some(JStr(s))) == s
  {
    if s != "" { TrimOfTrimmed(s); }
  }

  /** List fields read back as themselves. */
  lemma ListRoundTrip(xs: seq<string>)
    ensures Converts(Some(JArr(Strings(xs))))
    ensures ListField(Some(JArr(Strings(xs)))) == xs
  {
    assert Stringable(JArr(Strings(xs)));
    var r := ListField(Some(JArr(Strings(xs))));
    assert |r| == |xs|;
    forall i | 0 <= i < |xs| ensures r[i] == xs[i] {
      assert ToArray(Some(JArr(Strings(xs))))[i] == JStr(xs[i]);
    }
  }

  lemma ConditionRoundTrip(r: MedGemmaParsed)
    requires IsTrimmed(r.condition)
    ensures NormalizeKeys(ToJson(r)).Some?
    ensures NormalizeKeys(ToJson(r)).value.condition == r.condition
  {
    StringableNormalizes(ToJson(r));
    FirstPresentAliasWins(ToJson(r), ConditionKeys, 0);
    ScalarRoundTrip(r.condition);
  }

  lemma ExplanationRoundTrip(r: MedGemmaParsed)
    requires IsTrimmed(r.explanation)
    ensures NormalizeKeys(ToJson(r)).Some?
    ensures NormalizeKeys(ToJson(r)).value.explanation == r.explanation
  {
    StringableNormalizes(ToJson(r));
    FirstPresentAliasWins(ToJson(r), ExplanationKeys, 0);
    ScalarRoundTrip(r.explanation);
  }

  lemma CausesRoundTrip(r: MedGemmaParsed)
    ensures NormalizeKeys(ToJson(r)).Some?
    ensures NormalizeKeys(ToJson(r)).value.causes == r.causes
  {
    StringableNormalizes(ToJson(r));
    assert "causes[]" !in ToJson(r).fields;
    FirstPresentAliasWins(ToJson(r), CausesKeys, 1);
    ListRoundTrip(r.causes);
  }

  lemma StepsRoundTrip(r: MedGemmaParsed)
    ensures NormalizeKeys(ToJson(r)).Some?
    ensures NormalizeKeys(ToJson(r)).value.steps == r.steps
  {
    StringableNormalizes(ToJson(r));
    assert "steps[]" !in ToJson(r).fields;
    FirstPresentAliasWins(ToJson(r), StepsKeys, 1);
    ListRoundTrip(r.steps);
  }

  lemma DoctorRoundTrip(r: MedGemmaParsed)
    requires r.doctor.Some? ==> r.doctor.value != "" && IsTrimmed(r.doctor.value)
    ensures NormalizeKeys(ToJson(r)).Some?
    ensures NormalizeKeys(ToJson(r)).value.doctor == r.doctor
  {
    var obj := ToJson(r);
    StringableNormalizes(obj);
    if r.doctor.Some? {
      FirstPresentAliasWins(obj, DoctorKeys, 0);
      TrimOfTrimmed(r.doctor.value);
    } else {
      assert "doctor" !in obj.fields && "specialist" !in obj.fields && "referral" !in obj.fields;
      CoalescePicks(obj, DoctorKeys);
    }
  }

  /** Normalising the canonical JSON of a canonical record gives the record back. */
  lemma NormalizeToJson(r: MedGemmaParsed)
    requires Canonical(r)
    ensures NormalizeKeys(ToJson(r)) == Some(r)
  {
    ConditionRoundTrip(r);
    ExplanationRoundTrip(r);
    CausesRoundTrip(r);
    StepsRoundTrip(r);
    DoctorRoundTrip(r);
  }

  /**
   * Normalisation is stable: writing a record out and normalising it again
   * changes nothing, unless its doctor is the blank "" (see the next lemma).
   */
  lemma NormalizeStable(obj: Json)
    requires NormalizeKeys(obj).Some? && NormalizeKeys(obj).value.doctor != Some("")
    ensures NormalizeKeys(ToJson(NormalizeKeys(obj).value)) == NormalizeKeys(obj)
  {
    NormalizeToJson(NormalizeKeys(obj).value);
  }

  /** Example: a whitespace doctor is kept as "", which a second pass then drops. */
  lemma BlankDoctorNotStable()
    ensures NormalizeKeys(JObj(map["doctor" := JStr(" ")])).Some?
    ensures NormalizeKeys(JObj(map["doctor" := JStr(" ")])).value.doctor == Some("")
    ensures NormalizeKeys(ToJson(NormalizeKeys(JObj(map["doctor" := JStr(" ")])).value)).Some?
    ensures NormalizeKeys(ToJson(NormalizeKeys(JObj(map["doctor" := JStr(" ")])).value)).value.doctor.None?
  {
    var obj := JObj(map["doctor" := JStr(" ")]);
    StringableNormalizes(obj);
    BlankDoctorKept(obj, " ");
    var back := ToJson(NormalizeKeys(obj).value);
    StringableNormalizes(back);
    FirstPresentAliasWins(back, DoctorKeys, 0);
  }

  // ---------------------------------------------------------------------
  // parseMedGemmaContent
  // ---------------------------------------------------------------------

  /** The text handed to the parser: `stripCodeFences(extractJsonChunk(raw))`. */
  function Jsonish(raw: string): (r: string)
    ensures IsTrimmed(r)
  {
    StripCodeFences(ExtractJsonChunk(raw))
  }

  /**
   * parseMedGemmaContent: its fields are always trimmed strings or lists,
   * and unparseable output gives the defaults. It throws (None) exactly
   * when normalisation does.
   */
  function ParseMedGemmaContent(parse: string -> Option<Json>, raw: string): (r: Option<MedGemmaParsed>)
    ensures r.Some? ==> IsTrimmed(r.value.condition) && IsTrimmed(r.value.explanation)
    ensures r.Some? ==> (r.value.doctor.Some? ==> IsTrimmed(r.value.doctor.value))
    ensures Nullish(parse(Jsonish(raw))) ==> r == Some(EmptyResult)
  {
    NothingPresentIsEmpty(JObj(map[]));
    NormalizeKeys(ParsedOrEmpty(parse, Jsonish(raw)))
  }

  /** A reply whose parsed value has no own "toString" key among its fields never throws. */
  lemma ParseTotalWithoutToString(parse: string -> Option<Json>, raw: string)
    requires parse(Jsonish(raw)).Some? ==> FieldsStringable(parse(Jsonish(raw)).value)
    ensures ParseMedGemmaContent(parse, raw).Some?
  {
    StringableNormalizes(ParsedOrEmpty(parse, Jsonish(raw)));
  }

  /** The reply `{"condition":{"toString":1}}`, written without backticks. */
  const ToStringReply: string := "{\"condition\":{\"toString\":1}}"

  /** What `JSON.parse` makes of that reply. */
  const ToStringObject: Json := JObj(map["condition" := JObj(map["toString" := JNum(1)])])

  /**
   * As written, the reply `{"condition":{"toString":1}}` makes
   * parseMedGemmaContent throw a TypeError instead of returning a record.
   */
  lemma ToStringReplyThrows(parse: string -> Option<Json>, raw: string)
    requires raw == ToStringReply
    requires parse(raw) == Some(ToStringObject)
    ensures ParseMedGemmaContent(parse, raw).None?
  {
    ToStringReplyIsJsonish(raw);
    ParsedDirectly(parse, raw);
    ToStringObjectThrows();
  }

  lemma ToStringObjectThrows()
    ensures NormalizeKeys(ToStringObject).None?
  {
    OwnToStringThrows(ToStringObject, map["toString" := JNum(1)]);
  }

  /** A text that stripping leaves alone and that parses to a non-null value is normalised as parsed. */
  lemma ParsedDirectly(parse: string -> Option<Json>, raw: string)
    requires Jsonish(raw) == raw && parse(raw).Some? && parse(raw).value != JNull
    ensures ParseMedGemmaContent(parse, raw) == NormalizeKeys(parse(raw).value)
  {
  }

  /** A bare object without backticks is parsed as it is. */
  lemma BareObjectIsJsonish(o: string)
    requires '`' !in o
    requires |o| >= 2 && o[0] == '{' && o[|o| - 1] == '}'
    ensures Jsonish(o) == o
  {
    EmptyPad(o);
    ProseWrappedIsChunk("", o, "");
    BareObjectUnfenced(o);
  }

  lemma BareObjectUnfenced(o: string)
    requires '`' !in o
    requires |o| >= 2 && o[0] == '{' && o[|o| - 1] == '}'
    ensures StripCodeFences(o) == o
  {
    NoBacktickFenceFree(o);
    StripFenceFree(o);
    TrimOfTrimmed(o);
  }

  lemma EmptyPad(o: string)
    ensures "" + o + "" == o
  {
  }

  /** The reply has no backtick and is one object, so it is parsed as it is. */
  lemma ToStringReplyIsJsonish(raw: string)
    requires raw == ToStringReply
    ensures Jsonish(raw) == raw
  {
    assert forall k :: 0 <= k < |raw| ==> raw[k] != '`';
    BareObjectIsJsonish(raw);
  }

  /**
   * parseMedGemmaContent as evidently intended: a value `String` cannot
   * convert is treated like a reply that does not parse, so every reply
   * gives a record.
   */
  function TolerantParse(parse: string -> Option<Json>, raw: string): (r: MedGemmaParsed)
    ensures IsTrimmed(r.condition) && IsTrimmed(r.explanation)
    ensures r.doctor.Some? ==> IsTrimmed(r.doctor.value)
    ensures ParseMedGemmaContent(parse, raw).Some? ==> r == ParseMedGemmaContent(parse, raw).value
    ensures Nullish(parse(Jsonish(raw))) ==> r == EmptyResult
  {
    match ParseMedGemmaContent(parse, raw)
    case Some(p) => p
    case None => EmptyResult
  }

  /** The tolerant reading gives the defaults for the reply that throws as written. */
  lemma ToStringReplyTolerated(parse: string -> Option<Json>, raw: string)
    requires raw == ToStringReply
    requires parse(raw) == Some(ToStringObject)
    ensures TolerantParse(parse, raw) == EmptyResult
  {
    ToStringReplyThrows(parse, raw);
  }

  /** Trimming adds no backtick, so it cannot create a fence. */
  lemma TrimNoBacktick(s: string)
    requires '`' !in s
    ensures FenceFree(Trim(s))
  {
    var t := Trim(s);
    var i := SkipSpaces(s, 0);
    forall k | 0 <= k < |t| ensures t[k] != '`' {
      assert t[k] == s[i + k];
      assert s[i + k] in s;
    }
  }

  /**
   * A reply holding a fenced block is read from the block alone: its
   * trimmed body is what is parsed.
   */
  lemma {:induction false} FencedReplyParsesBody(
    parse: string -> Option<Json>, pre: string, tag: string, body: string, post: string)
    requires '`' !in pre && '`' !in body
    requires tag == "" || (|tag| == 4 && JsonTagAt(tag, 0))
    requires tag == "" ==> !JsonTagAt(body, 0)
    requires Trim(body) != ""
    ensures Jsonish(pre + Fence + tag + body + Fence + post) == Trim(body)
    ensures ParseMedGemmaContent(parse, pre + Fence + tag + body + Fence + post)
      == NormalizeKeys(ParsedOrEmpty(parse, Trim(body)))
  {
    FencedBlockIsChunk(pre, tag, body, post);
    TrimNoBacktick(body);
    StripFenceFree(Trim(body));
    TrimIdempotent(body);
  }

  /** The model's own reply format read back: a fenced JSON record is recovered exactly. */
  lemma FencedRoundTrip(
    parse: string -> Option<Json>, pre: string, tag: string, body: string, post: string,
    r: MedGemmaParsed)
    requires '`' !in pre && '`' !in body
    requires tag == "" || (|tag| == 4 && JsonTagAt(tag, 0))
    requires tag == "" ==> !JsonTagAt(body, 0)
    requires Trim(body) != ""
    requires Canonical(r) && parse(Trim(body)) == Some(ToJson(r))
    ensures ParseMedGemmaContent(parse, pre + Fence + tag + body + Fence + post) == Some(r)
    ensures TolerantParse(parse, pre + Fence + tag + body + Fence + post) == r
  {
    FencedReplyParsesBody(parse, pre, tag, body, post);
    NormalizeToJson(r);
  }

  /** A JSON record in prose without backticks is recovered exactly. */
  lemma ProseRoundTrip(
    parse: string -> Option<Json>, pre: string, obj: string, post: string, r: MedGemmaParsed)
    requires '`' !in pre + obj + post
    requires '{' !in pre && '}' !in post
    requires |obj| >= 2 && obj[0] == '{' && obj[|obj| - 1] == '}'
    requires Canonical(r) && parse(obj) == Some(ToJson(r))
    ensures ParseMedGemmaContent(parse, pre + obj + post) == Some(r)
    ensures TolerantParse(parse, pre + obj + post) == r
  {
    ProseReplyParsesObject(parse, pre, obj, post);
    NormalizeToJson(r);
  }

  /** A reply of prose around an object without backticks is read from the object alone. */
  lemma ProseReplyParsesObject(parse: string -> Option<Json>, pre: string, obj: string, post: string)
    requires '`' !in pre + obj + post
    requires '{' !in pre && '}' !in post
    requires |obj| >= 2 && obj[0] == '{' && obj[|obj| - 1] == '}'
    ensures Jsonish(pre + obj + post) == obj
    ensures ParseMedGemmaContent(parse, pre + obj + post) == NormalizeKeys(ParsedOrEmpty(parse, obj))
  {
    ProseWrappedIsChunk(pre, obj, post);
    MiddleNoBacktick(pre, obj, post);
    StripFenceFree(obj);
    TrimOfTrimmed(obj);
  }

  lemma MiddleNoBacktick(pre: string, obj: string, post: string)
    requires '`' !in pre + obj + post
    ensures FenceFree(obj)
  {
    forall k | 0 <= k < |obj| ensures obj[k] != '`' {
      assert obj[k] == (pre + obj + post)[|pre| + k];
    }
  }
}
