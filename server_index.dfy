/**
 * The pure logic of the analysis server (server/index.ts): the strict JSON
 * extractor applied to the model's reply, the never-failing `tryParse`, the
 * endpoint host name, the prediction payload, and the decisions the
 * `/analyze` handler takes between its I/O steps (which image to send, how
 * upload errors read, and which response a model reply produces).
 *
 * `parse` stands for `JSON.parse`: `None` is a thrown SyntaxError.
 */
module AnalyzeServer {
  import opened Wrappers
  import opened JsonValues
  import opened Text

  // ---------------------------------------------------------------------
  // extractJsonFromResponse
  // ---------------------------------------------------------------------

  /** "json" exactly: this regular expression has no `i` flag. */
  predicate ExactJsonAt(s: string, i: nat) {
    i + 4 <= |s| && s[i] == 'j' && s[i + 1] == 's' && s[i + 2] == 'o' && s[i + 3] == 'n'
  }

  /**
   * Where "{" has to be for a match starting at the fence at `p`: after the
   * optional "json" and the greedy `\s*`. Leaving the tag out instead never
   * helps, as "j" is neither whitespace nor "{".
   */
  function BodyStart(s: string, p: nat): (a: nat)
    requires p + 3 <= |s|
    ensures p + 3 <= a <= |s|
  {
    SkipSpaces(s, if ExactJsonAt(s, p + 3) then p + 7 else p + 3)
  }

  /**
   * What lies between the fence and the body: the exact tag "json" when it
   * is there, then the longest run of whitespace.
   */
  lemma BodyStartShape(s: string, p: nat)
    requires p + 3 <= |s|
    ensures ExactJsonAt(s, p + 3) ==> p + 7 <= BodyStart(s, p) && AllSpaces(s[p + 7..BodyStart(s, p)])
    ensures !ExactJsonAt(s, p + 3) ==> AllSpaces(s[p + 3..BodyStart(s, p)])
    ensures BodyStart(s, p) < |s| ==> !IsSpace(s[BodyStart(s, p)])
  {
    SkippedAreSpaces(s, if ExactJsonAt(s, p + 3) then p + 7 else p + 3);
  }

  /** A "}" followed by optional whitespace and a fence: where the lazy group may end. */
  predicate ClosesAt(s: string, j: nat) {
    j < |s| && s[j] == '}' && FenceAt(s, SkipSpaces(s, j + 1))
  }

  /** The first place at or after `from` where the group may end (the lazy `[\s\S]*?\}`). */
  function LazyClose(s: string, from: nat): (r: Option<nat>)
    requires from <= |s|
    ensures r.Some? ==> from <= r.value && ClosesAt(s, r.value)
    decreases |s| - from
  {
    if from == |s| then None
    else if ClosesAt(s, from) then Some(from)
    else LazyClose(s, from + 1)
  }

  /** The lazy group ends at the first possible place, and fails only when there is none. */
  lemma {:induction false} LazyCloseFirst(s: string, from: nat)
    requires from <= |s|
    ensures LazyClose(s, from).Some? ==> forall j :: from <= j < LazyClose(s, from).value ==> !ClosesAt(s, j)
    ensures LazyClose(s, from).None? ==> forall j :: from <= j ==> !ClosesAt(s, j)
    decreases |s| - from
  {
    if from < |s| && !ClosesAt(s, from) {
      LazyCloseFirst(s, from + 1);
    }
  }

  /**
   * The group `(\{[\s\S]*?\})` of a match of
   * /```(?:json)?\s*(\{[\s\S]*?\})\s*```/ that starts at `p`, as the slice
   * bounds `[a, b)`.
   */
  function FencedObjectAt(s: string, p: nat): (r: Option<(nat, nat)>)
    ensures r.Some? ==> FenceAt(s, p) && r.value.0 == BodyStart(s, p)
    ensures r.Some? ==> r.value.0 < r.value.1 <= |s| && s[r.value.0] == '{'
    ensures r.Some? ==> ClosesAt(s, r.value.1 - 1)
  {
    if FenceAt(s, p) then
      var a := BodyStart(s, p);
      if a < |s| && s[a] == '{' then
        match LazyClose(s, a + 1)
        case Some(j) => Some((a, j + 1))
        case None => None
      else None
    else None
  }

  /** The leftmost match at or after `from`: `content.match(...)[1]`. */
  function FirstFencedObject(s: string, from: nat): (r: Option<(nat, nat)>)
    requires from <= |s|
    ensures r.Some? ==> r.value.0 < r.value.1 <= |s|
    ensures r.Some? ==> s[r.value.0] == '{' && s[r.value.1 - 1] == '}'
    decreases |s| - from
  {
    match FencedObjectAt(s, from)
    case Some(g) => Some(g)
    case None => if from == |s| then None else FirstFencedObject(s, from + 1)
  }

  /** A match with no match before it is the one found. */
  lemma {:induction false} FirstFencedObjectIs(s: string, from: nat, p: nat)
    requires from <= p <= |s| && FencedObjectAt(s, p).Some?
    requires forall q :: from <= q < p ==> FencedObjectAt(s, q).None?
    ensures FirstFencedObject(s, from) == FencedObjectAt(s, p)
    decreases p - from
  {
    var g := FencedObjectAt(s, p);
    if from < p {
      var rest := FirstFencedObject(s, from + 1);
      FirstFencedSkip(s, from);
      FirstFencedObjectIs(s, from + 1, p);
      assert rest == g;
    } else {
      FirstFencedHere(s, from);
    }
  }

  lemma FirstFencedSkip(s: string, from: nat)
    requires from < |s| && FencedObjectAt(s, from).None?
    ensures FirstFencedObject(s, from) == FirstFencedObject(s, from + 1)
  {
  }

  lemma FirstFencedHere(s: string, from: nat)
    requires from <= |s| && FencedObjectAt(s, from).Some?
    ensures FirstFencedObject(s, from) == FencedObjectAt(s, from)
  {
  }

  /** Why the extractor gave up: the thrown Error, JSON.parse's SyntaxError, or a non-string reply. */
  datatype ExtractError = NoValidJson | SyntaxError | NotText

  /**
   * extractJsonFromResponse: the whole content if it parses; else the body
   * of the first fenced `{...}`; if that body does not parse, the greedy
   * `{...}` of the whole content, whose failure is a SyntaxError. Without a
   * fenced object it throws "No valid JSON found in response".
   */
  function ExtractJsonFromResponse(parse: string -> Option<Json>, content: string): (r: Result<Json, ExtractError>)
    ensures parse(content).Some? ==> r == Ok(parse(content).value)
    ensures r.Err? ==> parse(content).None? && r.error != NotText
  {
    if parse(content).Some? then Ok(parse(content).value)
    else
      match FirstFencedObject(content, 0)
      case None => Err(NoValidJson)
      case Some((a, b)) =>
        if parse(content[a..b]).Some? then Ok(parse(content[a..b]).value)
        else GreedyFallback(parse, content)
  }

  /** The last resort: the greedy `\{[\s\S]*\}` of the whole content, whose failure is a SyntaxError. */
  function GreedyFallback(parse: string -> Option<Json>, content: string): (r: Result<Json, ExtractError>)
    ensures r.Err? ==> r.error != NotText
  {
    match BraceSpan(content)
    case Some((f, l)) =>
      if parse(content[f..l + 1]).Some? then Ok(parse(content[f..l + 1]).value)
      else Err(SyntaxError)
    case None => Err(NoValidJson)
  }

  /** The greedy fallback always has a span to try, and it covers the fenced object. */
  lemma FallbackSpanCovers(content: string)
    requires FirstFencedObject(content, 0).Some?
    ensures BraceSpan(content).Some?
    ensures BraceSpan(content).value.0 <= FirstFencedObject(content, 0).value.0
    ensures FirstFencedObject(content, 0).value.1 - 1 <= BraceSpan(content).value.1
  {
    var g := FirstFencedObject(content, 0).value;
    BraceSpanCovers(content, g.0, g.1 - 1);
  }

  /**
   * A fenced object that does not parse hands over to the greedy span of
   * the whole content: its parse is the result, and its failure the
   * SyntaxError that propagates.
   */
  lemma FencedFailureFallsBack(parse: string -> Option<Json>, content: string)
    requires parse(content).None? && FirstFencedObject(content, 0).Some?
    requires parse(content[FirstFencedObject(content, 0).value.0..FirstFencedObject(content, 0).value.1]).None?
    ensures BraceSpan(content).Some?
    ensures var span := content[BraceSpan(content).value.0..BraceSpan(content).value.1 + 1];
      ExtractJsonFromResponse(parse, content) ==
        if parse(span).Some? then Ok(parse(span).value) else Err(SyntaxError)
  {
    FallbackSpanCovers(content);
  }

  /**
   * "No valid JSON found in response" is thrown exactly when the content
   * does not parse and holds no fenced object, parseable braces in the
   * prose notwithstanding.
   */
  lemma NoValidJsonExactly(parse: string -> Option<Json>, content: string)
    ensures ExtractJsonFromResponse(parse, content) == Err(NoValidJson)
      <==> parse(content).None? && FirstFencedObject(content, 0).None?
  {
    if parse(content).None? && FirstFencedObject(content, 0).Some? {
      FallbackSpanCovers(content);
      assert GreedyFallback(parse, content) != Err(NoValidJson);
    }
  }

  /** Any content without backticks that does not parse as a whole is rejected. */
  lemma {:induction false} UnfencedRejected(parse: string -> Option<Json>, content: string)
    requires '`' !in content && parse(content).None?
    ensures ExtractJsonFromResponse(parse, content) == Err(NoValidJson)
  {
    forall p | 0 <= p <= |content| ensures FencedObjectAt(content, p).None? {
      if p < |content| { assert content[p] in content; }
    }
    FirstFencedNone(content, 0);
    NoValidJsonExactly(parse, content);
  }

  /** No match is found only when there is no match at any position. */
  lemma {:induction false} FirstFencedNoneAll(s: string, from: nat)
    requires from <= |s| && FirstFencedObject(s, from).None?
    ensures forall p :: from <= p <= |s| ==> FencedObjectAt(s, p).None?
    decreases |s| - from
  {
    if from < |s| {
      FirstFencedNoneAll(s, from + 1);
    }
  }

  lemma {:induction false} FirstFencedNone(s: string, from: nat)
    requires from <= |s|
    requires forall p :: from <= p <= |s| ==> FencedObjectAt(s, p).None?
    ensures FirstFencedObject(s, from).None?
    decreases |s| - from
  {
    if from < |s| {
      FirstFencedNone(s, from + 1);
    }
  }

  /**
   * Example: prose holding an object is refused, even though the object
   * alone would parse.
   */
  lemma ProseObjectRejected(parse: string -> Option<Json>)
    requires parse("see {}").None? && parse("{}") == Some(JObj(map[]))
    ensures ExtractJsonFromResponse(parse, "see {}") == Err(NoValidJson)
    ensures ExtractJsonFromResponse(parse, "{}") == Ok(JObj(map[]))
  {
    UnfencedRejected(parse, "see {}");
  }

  /**
   * A reply made of prose without backticks, a fence with an optional
   * "json" tag, an object whose inside holds no backtick, and a closing
   * fence yields the parse of that object when the whole reply does not
   * parse.
   */
  lemma {:induction false} FencedObjectParsed(
    parse: string -> Option<Json>, pre: string, tag: string, ws1: string, inner: string,
    ws2: string, post: string)
    requires '`' !in pre && '`' !in inner
    requires tag == "" || tag == "json"
    requires AllSpaces(ws1) && AllSpaces(ws2)
    requires parse(pre + "```" + tag + ws1 + "{" + inner + "}" + ws2 + "```" + post).None?
    requires parse("{" + inner + "}").Some?
    ensures ExtractJsonFromResponse(parse, pre + "```" + tag + ws1 + "{" + inner + "}" + ws2 + "```" + post)
      == Ok(parse("{" + inner + "}").value)
  {
    var content := FencedReply(pre, tag, ws1, inner, ws2, post);
    var a := |pre| + 3 + |tag| + |ws1|;
    var c := a + 1 + |inner|;
    FencedReplyMatch(pre, tag, ws1, inner, ws2, post);
    LayoutObject(pre, tag, ws1, inner, ws2, post);
    FoundObjectParsed(parse, content, a, c, "{" + inner + "}");
  }

  /** The object of such a reply is the first fenced match. */
  lemma FencedReplyMatch(pre: string, tag: string, ws1: string, inner: string, ws2: string, post: string)
    requires '`' !in pre && '`' !in inner
    requires tag == "" || tag == "json"
    requires AllSpaces(ws1) && AllSpaces(ws2)
    ensures FirstFencedObject(FencedReply(pre, tag, ws1, inner, ws2, post), 0)
      == Some((|pre| + 3 + |tag| + |ws1|, |pre| + 3 + |tag| + |ws1| + 1 + |inner| + 1))
  {
    var content := FencedReply(pre, tag, ws1, inner, ws2, post);
    var a := |pre| + 3 + |tag| + |ws1|;
    var c := a + 1 + |inner|;
    LayoutOpening(pre, tag, ws1, inner, ws2, post);
    OpeningOf(pre, tag, ws1, inner, ws2, post);
    ClosingOf(pre, tag, ws1, inner, ws2, post);
    FirstMatch(content, |pre|, a, c);
  }

  /** The opening fence of such a reply leads to its "{". */
  lemma OpeningOf(pre: string, tag: string, ws1: string, inner: string, ws2: string, post: string)
    requires '`' !in pre && '`' !in inner
    requires tag == "" || tag == "json"
    requires AllSpaces(ws1)
    ensures var content := FencedReply(pre, tag, ws1, inner, ws2, post);
      var a := |pre| + 3 + |tag| + |ws1|;
      a + 1 + |inner| < |content| && content[a] == '{' && BodyStart(content, |pre|) == a
  {
    var content := FencedReply(pre, tag, ws1, inner, ws2, post);
    LayoutOpening(pre, tag, ws1, inner, ws2, post);
    LayoutObject(pre, tag, ws1, inner, ws2, post);
    OpeningFence(content, |pre|, |tag|, |pre| + 3 + |tag| + |ws1|);
  }

  /** The "}" of such a reply is where its lazy group ends. */
  lemma ClosingOf(pre: string, tag: string, ws1: string, inner: string, ws2: string, post: string)
    requires '`' !in inner
    requires AllSpaces(ws2)
    ensures var content := FencedReply(pre, tag, ws1, inner, ws2, post);
      var a := |pre| + 3 + |tag| + |ws1|;
      LazyClose(content, a + 1) == Some(a + 1 + |inner|)
  {
    var content := FencedReply(pre, tag, ws1, inner, ws2, post);
    var a := |pre| + 3 + |tag| + |ws1|;
    LayoutObject(pre, tag, ws1, inner, ws2, post);
    LayoutClosing(pre, tag, ws1, inner, ws2, post);
    ClosingBrace(content, a, a + 1 + |inner|, |ws2|);
  }

  /** The index-level core of the lemma above. */
  lemma FoundObjectParsed(parse: string -> Option<Json>, content: string, a: nat, c: nat, obj: string)
    requires a < c < |content|
    requires FirstFencedObject(content, 0) == Some((a, c + 1))
    requires content[a..c + 1] == obj
    requires parse(content).None? && parse(obj).Some?
    ensures ExtractJsonFromResponse(parse, content) == Ok(parse(obj).value)
  {
    assert parse(content[a..c + 1]) == parse(obj);
  }

  /** The match at the first fence, with no backtick before it, is the leftmost one. */
  lemma FirstMatch(content: string, p: nat, a: nat, c: nat)
    requires p + 3 <= a < c < |content|
    requires forall q :: 0 <= q < p ==> content[q] != '`'
    requires FenceAt(content, p) && BodyStart(content, p) == a && content[a] == '{'
    requires LazyClose(content, a + 1) == Some(c)
    ensures FirstFencedObject(content, 0) == Some((a, c + 1))
  {
    assert FencedObjectAt(content, p) == Some((a, c + 1));
    forall q | 0 <= q < p ensures FencedObjectAt(content, q).None? {
      assert !FenceAt(content, q);
    }
    FirstFencedObjectIs(content, 0, p);
  }

  /** The reply the lemma above speaks of. */
  function FencedReply(pre: string, tag: string, ws1: string, inner: string, ws2: string, post: string): string {
    pre + "```" + tag + ws1 + "{" + inner + "}" + ws2 + "```" + post
  }

  /** The prose before the fence, the fence, the tag and the whitespace after it. */
  lemma LayoutOpening(pre: string, tag: string, ws1: string, inner: string, ws2: string, post: string)
    requires '`' !in pre
    requires tag == "" || tag == "json"
    requires AllSpaces(ws1)
    ensures var content := FencedReply(pre, tag, ws1, inner, ws2, post);
      var p := |pre|;
      var a := p + 3 + |tag| + |ws1|;
      && a < |content|
      && (forall q :: 0 <= q < p ==> content[q] != '`')
      && FenceAt(content, p)
      && (tag == "json" ==> ExactJsonAt(content, p + 3))
      && (tag == "" && p + 3 < a ==> IsSpace(content[p + 3]))
      && (forall k {:trigger IsSpace(content[k])} :: p + 3 + |tag| <= k < a ==> IsSpace(content[k]))
  {
    var content := FencedReply(pre, tag, ws1, inner, ws2, post);
    var p := |pre|;
    var a := p + 3 + |tag| + |ws1|;
    forall q | 0 <= q < p ensures content[q] != '`' {
      assert content[q] == pre[q];
      assert pre[q] in pre;
    }
    forall k | p + 3 + |tag| <= k < a ensures IsSpace(content[k]) {
      assert content[k] == ws1[k - p - 3 - |tag|];
    }
  }

  /** The object: a "{", an inside without backticks, a "}". */
  lemma LayoutObject(pre: string, tag: string, ws1: string, inner: string, ws2: string, post: string)
    requires '`' !in inner
    ensures var content := FencedReply(pre, tag, ws1, inner, ws2, post);
      var a := |pre| + 3 + |tag| + |ws1|;
      var c := a + 1 + |inner|;
      && c < |content|
      && content[a] == '{'
      && (forall k :: a < k < c ==> content[k] != '`')
      && content[c] == '}'
      && content[a..c + 1] == "{" + inner + "}"
  {
    var content := FencedReply(pre, tag, ws1, inner, ws2, post);
    var a := |pre| + 3 + |tag| + |ws1|;
    var c := a + 1 + |inner|;
    var obj := "{" + inner + "}";
    forall k | 0 <= k < |obj| ensures content[a + k] == obj[k] {
    }
    forall k | a < k < c ensures content[k] != '`' {
      assert content[k] == inner[k - a - 1];
      assert inner[k - a - 1] in inner;
    }
    assert content[a..c + 1] == obj;
  }

  /** The whitespace after the object and the closing fence. */
  lemma LayoutClosing(pre: string, tag: string, ws1: string, inner: string, ws2: string, post: string)
    requires AllSpaces(ws2)
    ensures var content := FencedReply(pre, tag, ws1, inner, ws2, post);
      var c := |pre| + 3 + |tag| + |ws1| + 1 + |inner|;
      && c + 1 + |ws2| + 3 <= |content|
      && (forall k {:trigger IsSpace(content[k])} :: c < k <= c + |ws2| ==> IsSpace(content[k]))
      && FenceAt(content, c + 1 + |ws2|)
  {
    var content := FencedReply(pre, tag, ws1, inner, ws2, post);
    var c := |pre| + 3 + |tag| + |ws1| + 1 + |inner|;
    forall k | c < k <= c + |ws2| ensures IsSpace(content[k]) {
      assert content[k] == ws2[k - c - 1];
    }
  }

  /** The opening fence leads to the "{" at `a`. */
  lemma OpeningFence(content: string, p: nat, tagLen: nat, a: nat)
    requires p + 3 + tagLen <= a < |content|
    requires FenceAt(content, p) && content[a] == '{'
    requires tagLen == 0 || tagLen == 4
    requires tagLen == 4 ==> ExactJsonAt(content, p + 3)
    requires tagLen == 0 && p + 3 < a ==> IsSpace(content[p + 3])
    requires forall k {:trigger IsSpace(content[k])} :: p + 3 + tagLen <= k < a ==> IsSpace(content[k])
    ensures BodyStart(content, p) == a
  {
    if tagLen == 0 {
      assert !ExactJsonAt(content, p + 3) by {
        if p + 3 < a { assert IsSpace(content[p + 3]); } else { assert content[p + 3] == '{'; }
      }
    }
    SkipOver(content, p + 3 + tagLen, a);
  }

  /** The "}" at `c` is the first place the lazy group can end. */
  lemma ClosingBrace(content: string, a: nat, c: nat, wsLen: nat)
    requires a < c && c + 1 + wsLen + 3 <= |content|
    requires forall k :: a < k < c ==> content[k] != '`'
    requires content[c] == '}'
    requires forall k {:trigger IsSpace(content[k])} :: c < k <= c + wsLen ==> IsSpace(content[k])
    requires FenceAt(content, c + 1 + wsLen)
    ensures LazyClose(content, a + 1) == Some(c)
  {
    assert SkipSpaces(content, c + 1) == c + 1 + wsLen by {
      SkipOver(content, c + 1, c + 1 + wsLen);
    }
    forall j | a + 1 <= j < c ensures !ClosesAt(content, j) {
      if content[j] == '}' {
        var k := SkipSpaces(content, j + 1);
        assert k <= c by { SkipStopsAt(content, j + 1, c); }
        assert content[k] != '`' by {
          if k < c { assert a < k; } else { assert content[k] == '}'; }
        }
      }
    }
    LazyCloseIs(content, a + 1, c);
  }

  /** Over a run of whitespace up to a non-space, SkipSpaces lands at its end. */
  lemma {:induction false} SkipOver(s: string, i: nat, j: nat)
    requires i <= j < |s| && !IsSpace(s[j])
    requires forall k {:trigger IsSpace(s[k])} :: i <= k < j ==> IsSpace(s[k])
    ensures SkipSpaces(s, i) == j
    decreases j - i
  {
    if i < j {
      assert IsSpace(s[i]);
      SkipOver(s, i + 1, j);
    }
  }

  lemma {:induction false} LazyCloseIs(s: string, from: nat, c: nat)
    requires from <= c && ClosesAt(s, c)
    requires forall j :: from <= j < c ==> !ClosesAt(s, j)
    ensures LazyClose(s, from) == Some(c)
    decreases c - from
  {
    if from < c {
      LazyCloseIs(s, from + 1, c);
    }
  }

  // ---------------------------------------------------------------------
  // tryParse
  // ---------------------------------------------------------------------

  /** tryParse: never fails; what does not parse is wrapped as `{_raw: t}`. */
  function TryParse(parse: string -> Option<Json>, t: string): (r: Json)
    ensures parse(t).Some? ==> r == parse(t).value
    ensures parse(t).None? ==> Get(r, "_raw") == Some(JStr(t)) && |r.fields| == 1
  {
    if parse(t).Some? then parse(t).value else JObj(map["_raw" := JStr(t)])
  }

  /** Whatever the text, it can be told from the result whether it parsed. */
  lemma TryParseKeepsText(parse: string -> Option<Json>, t: string)
    requires parse(t).None?
    ensures At(Some(TryParse(parse, t)), [Key("_raw")]) == Some(JStr(t))
  {
    var r := TryParse(parse, t);
    assert At(Some(r), [Key("_raw")]) == At(Get(r, "_raw"), []);
  }

  // ---------------------------------------------------------------------
  // vertexHost
  // ---------------------------------------------------------------------

  const VertexSuffix: string := ".prediction.vertexai.goog"

  /** vertexHost: `{endpoint}.{location}-{projectNumber}.prediction.vertexai.goog`. */
  function VertexHost(endpoint: string, location: string, projectNumber: string): (h: string)
    ensures |h| == |endpoint| + |location| + |projectNumber| + 2 + |VertexSuffix|
    ensures h[..|endpoint|] == endpoint && h[|h| - |VertexSuffix|..] == VertexSuffix
  {
    endpoint + "." + location + "-" + projectNumber + VertexSuffix
  }

  /** Read the three parts back from a host name. */
  function SplitVertexHost(h: string): (r: Option<(string, string, string)>)
    ensures r.Some? ==> '.' !in r.value.0 && '-' !in r.value.2
  {
    if |h| < |VertexSuffix| || h[|h| - |VertexSuffix|..] != VertexSuffix then None
    else
      var front := h[..|h| - |VertexSuffix|];
      match IndexOf(front, '.')
      case None => None
      case Some(d) =>
        var rest := front[d + 1..];
        match LastIndexOf(rest, '-')
        case None => None
        case Some(m) =>
          assert forall k :: 0 <= k < d ==> front[..d][k] == front[k];
          assert forall k :: m < k < |rest| ==> rest[m + 1..][k - m - 1] == rest[k];
          Some((front[..d], rest[..m], rest[m + 1..]))
  }

  /**
   * The host names a single endpoint: its parts come back when the
   * endpoint id has no "." and the project number no "-" (both are
   * numbers in practice); the location may hold either.
   */
  lemma SplitVertexHostRoundTrip(endpoint: string, location: string, projectNumber: string)
    requires '.' !in endpoint && '-' !in projectNumber
    ensures SplitVertexHost(VertexHost(endpoint, location, projectNumber))
      == Some((endpoint, location, projectNumber))
  {
    var front := endpoint + "." + location + "-" + projectNumber;
    var rest := location + "-" + projectNumber;
    HostParts(endpoint, location, projectNumber);
    Regroup(endpoint, location, projectNumber);
    FirstDot(endpoint, rest);
    LastDash(location, projectNumber);
    AroundSeparator(endpoint, '.', rest);
    AroundSeparator(location, '-', projectNumber);
  }

  lemma HostParts(endpoint: string, location: string, projectNumber: string)
    ensures var h := VertexHost(endpoint, location, projectNumber);
      && |h| >= |VertexSuffix|
      && h[|h| - |VertexSuffix|..] == VertexSuffix
      && h[..|h| - |VertexSuffix|] == endpoint + "." + location + "-" + projectNumber
  {
    var front := endpoint + "." + location + "-" + projectNumber;
    assert VertexHost(endpoint, location, projectNumber) == front + VertexSuffix;
    AroundEnd(front, VertexSuffix);
  }

  lemma Regroup(endpoint: string, location: string, projectNumber: string)
    ensures endpoint + "." + location + "-" + projectNumber == endpoint + "." + (location + "-" + projectNumber)
  {
  }

  /** Both sides of a separator come back from the concatenation. */
  lemma AroundSeparator(x: string, c: char, y: string)
    ensures (x + [c] + y)[..|x|] == x && (x + [c] + y)[|x| + 1..] == y
  {
  }

  lemma AroundEnd(x: string, y: string)
    ensures (x + y)[..|x|] == x && (x + y)[|x|..] == y
  {
  }

  lemma FirstDot(endpoint: string, rest: string)
    requires '.' !in endpoint
    ensures IndexOf(endpoint + "." + rest, '.') == Some(|endpoint|)
  {
    var front := endpoint + "." + rest;
    forall k | 0 <= k < |endpoint| ensures front[k] != '.' {
      assert front[k] == endpoint[k];
      assert endpoint[k] in endpoint;
    }
    IndexOfIs(front, '.', |endpoint|);
  }

  lemma LastDash(location: string, projectNumber: string)
    requires '-' !in projectNumber
    ensures LastIndexOf(location + "-" + projectNumber, '-') == Some(|location|)
  {
    var rest := location + "-" + projectNumber;
    forall k | |location| < k < |rest| ensures rest[k] != '-' {
      assert rest[k] == projectNumber[k - |location| - 1];
      assert projectNumber[k - |location| - 1] in projectNumber;
    }
    LastIndexOfIs(rest, '-', |location|);
  }

  // ---------------------------------------------------------------------
  // buildChatCompletionsPayload
  // ---------------------------------------------------------------------

  const SystemPrompt: string :=
    "You are an expert dermatology assistant providing non-diagnostic educational guidance. "
    + "Always respond with valid JSON in this exact format: {\"condition\": \"...\", "
    + "\"explanation\": \"...\", \"causes\": [\"...\", \"...\"], \"steps\": [\"...\", \"...\"], "
    + "\"doctor\": \"...\"}. Do not wrap the JSON in markdown code blocks."

  const DefaultUserPrompt: string :=
    "Analyze this skin photo and provide educational information about potential conditions."

  const DefaultMaxTokens: int := 400

  /** `instances[0].messages[message].content[part]`. */
  function PartPath(message: nat, part: nat): seq<Step> {
    [Key("instances"), Index(0), Key("messages"), Index(message), Key("content"), Index(part)]
  }

  const FormatPath: seq<Step> := [Key("instances"), Index(0)] + [Key("@requestFormat")]
  const SystemTextPath: seq<Step> := PartPath(0, 0) + [Key("text")]
  const UserTextPath: seq<Step> := PartPath(1, 0) + [Key("text")]
  const ImageUrlPath: seq<Step> := PartPath(1, 1) + [Key("image_url"), Key("url")]
  const MaxTokensPath: seq<Step> := [Key("instances"), Index(0)] + [Key("max_tokens")]

  function TextPart(text: string): (r: Json)
    ensures Get(r, "text") == Some(JStr(text))
  {
    JObj(map["type" := JStr("text"), "text" := JStr(text)])
  }

  function ImagePart(url: string): (r: Json)
    ensures At(Some(r), [Key("image_url"), Key("url")]) == Some(JStr(url))
  {
    var r := JObj(map["type" := JStr("image_url"), "image_url" := JObj(map["url" := JStr(url)])]);
    assert At(Some(r), [Key("image_url"), Key("url")]) == At(Get(r, "image_url"), [Key("url")]);
    r
  }

  function Message(role: string, content: seq<Json>): (r: Json)
    ensures Get(r, "content") == Some(JArr(content))
  {
    JObj(map["role" := JStr(role), "content" := JArr(content)])
  }

  /** The one instance of the request, for the given texts, image and token bound. */
  function ChatInstance(system: string, userText: string, imageUrlOrData: string, maxTokens: int): (r: Json)
    ensures Get(r, "@requestFormat") == Some(JStr("chatCompletions"))
    ensures Get(r, "max_tokens") == Some(JNum(maxTokens))
    ensures Get(r, "messages") == Some(JArr([
      Message("system", [TextPart(system)]),
      Message("user", [TextPart(userText), ImagePart(imageUrlOrData)])]))
  {
    JObj(map[
      "@requestFormat" := JStr("chatCompletions"),
      "messages" := JArr([
        Message("system", [TextPart(system)]),
        Message("user", [TextPart(userText), ImagePart(imageUrlOrData)])]),
      "max_tokens" := JNum(maxTokens)])
  }

  /** `{instances: [instance]}`. */
  function Instances(instance: Json): (r: Json)
    ensures Get(r, "instances") == Some(JArr([instance]))
    ensures r.JObj? && r.fields.Keys == {"instances"}
  {
    JObj(map["instances" := JArr([instance])])
  }

  /** buildChatCompletionsPayload: `args.prompt || <default>` and `args.maxTokens ?? 400`. */
  function BuildChatCompletionsPayload(prompt: string, imageUrlOrData: string, maxTokens: Option<int>): (r: Json)
    ensures r.JObj? && r.fields.Keys == {"instances"}
    ensures r.fields["instances"].JArr? && |r.fields["instances"].items| == 1
  {
    Instances(ChatInstance(SystemPrompt, if prompt != "" then prompt else DefaultUserPrompt, imageUrlOrData,
      if maxTokens.Some? then maxTokens.value else DefaultMaxTokens))
  }

  /**
   * The payload as the container reads it: a chatCompletions instance with
   * the fixed system prompt, the user prompt (the default when empty), the
   * image, and `max_tokens` defaulting to 400.
   */
  lemma PayloadFields(prompt: string, imageUrlOrData: string, maxTokens: Option<int>)
    ensures var r := BuildChatCompletionsPayload(prompt, imageUrlOrData, maxTokens);
      && At(Some(r), FormatPath) == Some(JStr("chatCompletions"))
      && At(Some(r), SystemTextPath) == Some(JStr(SystemPrompt))
      && At(Some(r), UserTextPath) == Some(JStr(if prompt != "" then prompt else DefaultUserPrompt))
      && At(Some(r), ImageUrlPath) == Some(JStr(imageUrlOrData))
      && At(Some(r), MaxTokensPath) == Some(JNum(if maxTokens.Some? then maxTokens.value else DefaultMaxTokens))
  {
    var userText := if prompt != "" then prompt else DefaultUserPrompt;
    var n := if maxTokens.Some? then maxTokens.value else DefaultMaxTokens;
    InstanceScalars(SystemPrompt, userText, imageUrlOrData, n);
    InstanceSystemText(SystemPrompt, userText, imageUrlOrData, n);
    InstanceUserText(SystemPrompt, userText, imageUrlOrData, n);
    InstanceImage(SystemPrompt, userText, imageUrlOrData, n);
  }

  lemma InstanceScalars(system: string, userText: string, imageUrlOrData: string, maxTokens: int)
    ensures var r := Instances(ChatInstance(system, userText, imageUrlOrData, maxTokens));
      && At(Some(r), FormatPath) == Some(JStr("chatCompletions"))
      && At(Some(r), MaxTokensPath) == Some(JNum(maxTokens))
  {
    var inst := ChatInstance(system, userText, imageUrlOrData, maxTokens);
    KeyIndex(Instances(inst), "instances", [inst], 0, [Key("@requestFormat")]);
    KeyIndex(Instances(inst), "instances", [inst], 0, [Key("max_tokens")]);
    AtKey(inst, "@requestFormat");
    AtKey(inst, "max_tokens");
  }

  lemma InstanceSystemText(system: string, userText: string, imageUrlOrData: string, maxTokens: int)
    ensures At(Some(Instances(ChatInstance(system, userText, imageUrlOrData, maxTokens))), SystemTextPath)
      == Some(JStr(system))
  {
    var inst := ChatInstance(system, userText, imageUrlOrData, maxTokens);
    var msgs := [Message("system", [TextPart(system)]), Message("user", [TextPart(userText), ImagePart(imageUrlOrData)])];
    PartWalk(Instances(inst), inst, msgs, 0, [TextPart(system)], 0, [Key("text")]);
    AtKey(TextPart(system), "text");
  }

  lemma InstanceUserText(system: string, userText: string, imageUrlOrData: string, maxTokens: int)
    ensures At(Some(Instances(ChatInstance(system, userText, imageUrlOrData, maxTokens))), UserTextPath)
      == Some(JStr(userText))
  {
    var inst := ChatInstance(system, userText, imageUrlOrData, maxTokens);
    var parts := [TextPart(userText), ImagePart(imageUrlOrData)];
    var msgs := [Message("system", [TextPart(system)]), Message("user", parts)];
    PartWalk(Instances(inst), inst, msgs, 1, parts, 0, [Key("text")]);
    AtKey(TextPart(userText), "text");
  }

  lemma InstanceImage(system: string, userText: string, imageUrlOrData: string, maxTokens: int)
    ensures At(Some(Instances(ChatInstance(system, userText, imageUrlOrData, maxTokens))), ImageUrlPath)
      == Some(JStr(imageUrlOrData))
  {
    var inst := ChatInstance(system, userText, imageUrlOrData, maxTokens);
    var parts := [TextPart(userText), ImagePart(imageUrlOrData)];
    var msgs := [Message("system", [TextPart(system)]), Message("user", parts)];
    PartWalk(Instances(inst), inst, msgs, 1, parts, 1, [Key("image_url"), Key("url")]);
  }

  /** Walking down to a content part, once each container on the way is known. */
  lemma PartWalk(r: Json, inst: Json, msgs: seq<Json>, message: nat, parts: seq<Json>, part: nat, rest: seq<Step>)
    requires Get(r, "instances") == Some(JArr([inst]))
    requires Get(inst, "messages") == Some(JArr(msgs)) && message < |msgs|
    requires Get(msgs[message], "content") == Some(JArr(parts)) && part < |parts|
    ensures At(Some(r), PartPath(message, part) + rest) == At(Some(parts[part]), rest)
  {
    var p3 := [Key("content"), Index(part)] + rest;
    var p2 := [Key("messages"), Index(message)] + p3;
    assert PartPath(message, part) + rest == [Key("instances"), Index(0)] + p2;
    KeyIndex(r, "instances", [inst], 0, p2);
    KeyIndex(inst, "messages", msgs, message, p3);
    KeyIndex(msgs[message], "content", parts, part, rest);
  }

  /** Two steps, a key holding an array and an index into it. */
  lemma KeyIndex(v: Json, k: string, xs: seq<Json>, i: nat, rest: seq<Step>)
    requires Get(v, k) == Some(JArr(xs)) && i < |xs|
    ensures At(Some(v), [Key(k), Index(i)] + rest) == At(Some(xs[i]), rest)
  {
    var p := [Key(k), Index(i)] + rest;
    assert p[0] == Key(k) && p[1..][0] == Index(i) && p[1..][1..] == rest;
  }

  /** A one-key path from an object. */
  lemma AtKey(v: Json, k: string)
    requires v.JObj?
    ensures At(Some(v), [Key(k)]) == Get(v, k)
  {
    assert [Key(k)][1..] == [];
  }

  // ---------------------------------------------------------------------
  // The /analyze handler
  // ---------------------------------------------------------------------

  /** An HTTP response: its status and its JSON body. */
  datatype Response = Response(status: int, body: Json)

  /** `{ok: false, error: message}`. */
  function ErrorBody(message: string): (r: Json)
    ensures Get(r, "ok") == Some(JBool(false)) && Get(r, "error") == Some(JStr(message))
  {
    JObj(map["ok" := JBool(false), "error" := JStr(message)])
  }

  const DefaultHandlerPrompt: string :=
    "Analyze this skin photo for educational purposes. Provide information about potential "
    + "conditions, causes, care steps, and when to see a doctor."

  /** A string field that is present and not empty (truthy). */
  predicate Filled(o: Option<string>) {
    o.Some? && o.value != ""
  }

  /** `req.body?.prompt || <default>`, for a prompt sent as a string or not at all. */
  function HandlerPrompt(bodyPrompt: Option<string>): (r: string)
    ensures r != ""
    ensures Filled(bodyPrompt) ==> r == bodyPrompt.value
    ensures !Filled(bodyPrompt) ==> r == DefaultHandlerPrompt
  {
    if Filled(bodyPrompt) then bodyPrompt.value else DefaultHandlerPrompt
  }

  /**
   * The handler always sends a prompt of its own, so the payload's default
   * user text is never what a missing prompt turns into, and `max_tokens`
   * is always 400.
   */
  lemma HandlerPayload(bodyPrompt: Option<string>, imageUrlOrData: string)
    ensures var r := BuildChatCompletionsPayload(HandlerPrompt(bodyPrompt), imageUrlOrData, None);
      && At(Some(r), UserTextPath) == Some(JStr(HandlerPrompt(bodyPrompt)))
      && (!Filled(bodyPrompt) ==> At(Some(r), UserTextPath) == Some(JStr(DefaultHandlerPrompt)))
      && At(Some(r), MaxTokensPath) == Some(JNum(400))
  {
    PayloadFields(HandlerPrompt(bodyPrompt), imageUrlOrData, None);
  }

  const DataUrlPrefix: string := "data:image/webp;base64,"

  const NoImageMessage: string := "No image provided. Upload a file or pass imageUrl."

  /**
   * The image-source steps of the handler. `files` holds, for each uploaded
   * file, the base64 text of its resized WebP version; the resize itself is
   * not modelled. Success is the image to send; failure the 400 response.
   */
  method SelectImageSource(files: seq<string>, bodyUrl: Option<string>, queryUrl: Option<string>)
    returns (r: Result<string, Response>)
    ensures |files| > 0 ==> r == Ok(DataUrlPrefix + files[0])
    ensures |files| == 0 && Filled(bodyUrl) ==> r == Ok(bodyUrl.value)
    ensures |files| == 0 && !Filled(bodyUrl) && Filled(queryUrl) ==> r == Ok(queryUrl.value)
    ensures |files| == 0 && !Filled(bodyUrl) && !Filled(queryUrl) ==> r == Err(Response(400, ErrorBody(NoImageMessage)))
  {
    var imageUrlOrData: Option<string> := None;
    if |files| > 0 {
      imageUrlOrData := Some(DataUrlPrefix + files[0]);
    }
    if !Filled(imageUrlOrData) {
      var url: Option<string> := if Filled(bodyUrl) then bodyUrl else if Filled(queryUrl) then queryUrl else None;
      if Filled(url) {
        imageUrlOrData := url;
      }
    }
    if !Filled(imageUrlOrData) {
      return Err(Response(400, ErrorBody(NoImageMessage)));
    }
    return Ok(imageUrlOrData.value);
  }

  /** An error multer hands to the callback: its `code` (if any), `name` and `message`. */
  datatype UploadError = UploadError(code: Option<string>, name: string, message: string)

  /** `String(err)`, that is `Error.prototype.toString`. */
  function ErrorText(e: UploadError): string {
    if e.message == "" then e.name
    else if e.name == "" then e.message
    else e.name + ": " + e.message
  }

  const FileTooLargeMessage: string := "File too large (max 10MB)."
  const UploadErrorPrefix: string := "Upload error: "

  /** The multer error message: a size error has its own text, any other is prefixed. */
  function UploadErrorMessage(e: UploadError): (m: string)
    ensures e.code != Some("LIMIT_FILE_SIZE") ==> StartsWith(m, UploadErrorPrefix)
    ensures e.code != Some("LIMIT_FILE_SIZE") && e.message != "" ==> m[|UploadErrorPrefix|..] == e.message
  {
    if e.code == Some("LIMIT_FILE_SIZE") then FileTooLargeMessage
    else
      var m := UploadErrorPrefix + (if e.message != "" then e.message else ErrorText(e));
      assert m[..|UploadErrorPrefix|] == UploadErrorPrefix;
      m
  }

  /** Every upload error is a 400 with `ok: false`. */
  function UploadErrorResponse(e: UploadError): (r: Response)
    ensures r.status == 400
    ensures Get(r.body, "ok") == Some(JBool(false))
    ensures Get(r.body, "error") == Some(JStr(UploadErrorMessage(e)))
  {
    Response(400, ErrorBody(UploadErrorMessage(e)))
  }

  /** The size message is given exactly for multer's LIMIT_FILE_SIZE code. */
  lemma TooLargeExactly(e: UploadError)
    ensures UploadErrorMessage(e) == FileTooLargeMessage <==> e.code == Some("LIMIT_FILE_SIZE")
  {
    if e.code != Some("LIMIT_FILE_SIZE") {
      var m := UploadErrorMessage(e);
      assert m[0] == 'U' && FileTooLargeMessage[0] == 'F';
    }
  }

  const ContentPath: seq<Step> :=
    [Key("predictions"), Key("choices"), Index(0), Key("message"), Key("content")]
  const UsagePath: seq<Step> := [Key("predictions"), Key("usage")]

  /**
   * What the extractor makes of the reply's content: a string is searched as
   * above; any other value first goes through `JSON.parse(String(v))`, and
   * when that fails (or `String(v)` itself throws) the `.match` call throws.
   */
  function ExtractFromContent(parse: string -> Option<Json>, content: Json): (r: Result<Json, ExtractError>)
    ensures content.JStr? ==> r == ExtractJsonFromResponse(parse, content.s)
    ensures !content.JStr? ==> (r.Ok? <==> ToStr(content).Some? && parse(ToStr(content).value).Some?)
    ensures !content.JStr? && r.Ok? ==> Some(r.value) == parse(ToStr(content).value)
  {
    if content.JStr? then ExtractJsonFromResponse(parse, content.s)
    else match ToStr(content)
      case Some(t) => if parse(t).Some? then Ok(parse(t).value) else Err(NotText)
      case None => Err(NotText)
  }

  /** `m` with `key` set when `v` is defined: `JSON.stringify` drops undefined members. */
  function Put(m: map<string, Json>, key: string, v: Option<Json>): (r: map<string, Json>)
    ensures v.Some? ==> r == m[key := v.value]
    ensures v.None? ==> r == m
  {
    if v.Some? then m[key := v.value] else m
  }

  /** `v || []`. */
  function OrEmptyList(v: Option<Json>): (r: Json)
    ensures Truthy(r)
    ensures Defined(v) ==> r == v.value
  {
    if Defined(v) then v.value else JArr([])
  }

  /** The body of the success response built from the extracted value. */
  function SuccessBody(analyzed: Json, usage: Option<Json>): (r: Json)
    ensures r.JObj?
    ensures {"ok", "causes", "steps", "source"} <= r.fields.Keys
    ensures r.fields.Keys <= {"ok", "condition", "explanation", "causes", "steps", "doctor", "source", "usage"}
  {
    JObj(Put(Put(Put(Put(map[
      "ok" := JBool(true),
      "causes" := OrEmptyList(Get(analyzed, "causes")),
      "steps" := OrEmptyList(Get(analyzed, "steps")),
      "source" := JStr("medgemma")],
      "condition", Get(analyzed, "condition")),
      "explanation", Get(analyzed, "explanation")),
      "doctor", Get(analyzed, "doctor")),
      "usage", usage))
  }

  const NoContentMessage: string := "No content in model response"
  const ParseFailedMessage: string := "Failed to parse model response as JSON"
  const NoValidJsonMessage: string := "No valid JSON found in response"

  /** The 502 sent when the reply's content yields no usable JSON. */
  function ParseFailure(content: Json, message: string): (r: Response)
    ensures r.status == 502 && Get(r.body, "ok") == Some(JBool(false))
    ensures Get(r.body, "error") == Some(JStr(ParseFailedMessage))
    ensures Get(r.body, "rawContent") == Some(content)
  {
    Response(502, JObj(map[
      "ok" := JBool(false), "error" := JStr(ParseFailedMessage),
      "rawContent" := content, "parseError" := JStr(message)]))
  }

  /**
   * The handler's steps after a successful predict call, from the response
   * text to what it answers. `engineMessage` is the message of a SyntaxError
   * or TypeError, whose wording belongs to the JavaScript engine. Reading
   * `condition` off a null result throws, and that is caught like a
   * failed parse.
   */
  function AnalyzeReply(parse: string -> Option<Json>, text: string, engineMessage: string): (r: Response)
    ensures r.status == 200 || r.status == 502
  {
    var responseJson := TryParse(parse, text);
    var content := At(Some(responseJson), ContentPath);
    if !Defined(content) then NoContentReply(responseJson)
    else ContentReply(content.value, ExtractFromContent(parse, content.value),
      At(Some(responseJson), UsagePath), engineMessage)
  }

  /** The 502 sent when the reply has no content at all. */
  function NoContentReply(responseJson: Json): (r: Response)
    ensures r.status == 502 && Get(r.body, "ok") == Some(JBool(false))
    ensures Get(r.body, "error") == Some(JStr(NoContentMessage)) && Get(r.body, "raw") == Some(responseJson)
  {
    Response(502, JObj(map["ok" := JBool(false), "error" := JStr(NoContentMessage), "raw" := responseJson]))
  }

  /** The response for content that is there, once the extractor has had its say. */
  function ContentReply(content: Json, extracted: Result<Json, ExtractError>, usage: Option<Json>,
    engineMessage: string): (r: Response)
    ensures r.status == 200 || r.status == 502
    ensures r.status == 200 <==> extracted.Ok? && extracted.value != JNull
  {
    match extracted
    case Err(NoValidJson) => ParseFailure(content, NoValidJsonMessage)
    case Err(_) => ParseFailure(content, engineMessage)
    case Ok(analyzed) =>
      if analyzed == JNull then ParseFailure(content, engineMessage)
      else Response(200, SuccessBody(analyzed, usage))
  }

  /** Every reply says `ok: true` exactly when its status is 200. */
  lemma ReplyOkMatchesStatus(parse: string -> Option<Json>, text: string, engineMessage: string)
    ensures var r := AnalyzeReply(parse, text, engineMessage);
      Get(r.body, "ok") == Some(JBool(r.status == 200))
  {
    var responseJson := TryParse(parse, text);
    var content := At(Some(responseJson), ContentPath);
    if Defined(content) {
      ContentReplyOk(content.value, ExtractFromContent(parse, content.value),
        At(Some(responseJson), UsagePath), engineMessage);
    }
  }

  lemma ContentReplyOk(content: Json, extracted: Result<Json, ExtractError>, usage: Option<Json>,
    engineMessage: string)
    ensures var r := ContentReply(content, extracted, usage, engineMessage);
      Get(r.body, "ok") == Some(JBool(r.status == 200))
  {
    if extracted.Ok? && extracted.value != JNull {
      SuccessFixed(extracted.value, usage);
    }
  }

  /**
   * The success body passes condition, explanation and doctor through as
   * they are (neither aliased nor trimmed, and left out when undefined) and
   * replaces falsy causes and steps with [].
   */
  lemma SuccessBodyFields(analyzed: Json, usage: Option<Json>)
    ensures var b := SuccessBody(analyzed, usage);
      && Get(b, "ok") == Some(JBool(true))
      && Get(b, "source") == Some(JStr("medgemma"))
      && Get(b, "condition") == Get(analyzed, "condition")
      && Get(b, "explanation") == Get(analyzed, "explanation")
      && Get(b, "doctor") == Get(analyzed, "doctor")
      && Get(b, "usage") == usage
      && Get(b, "causes") == Some(if Defined(Get(analyzed, "causes")) then Get(analyzed, "causes").value else JArr([]))
      && Get(b, "steps") == Some(if Defined(Get(analyzed, "steps")) then Get(analyzed, "steps").value else JArr([]))
  {
    SuccessFixed(analyzed, usage);
    SuccessPassed(analyzed, usage);
    SuccessDoctor(analyzed, usage);
    SuccessLists(analyzed, usage);
  }

  lemma SuccessFixed(analyzed: Json, usage: Option<Json>)
    ensures Get(SuccessBody(analyzed, usage), "ok") == Some(JBool(true))
    ensures Get(SuccessBody(analyzed, usage), "source") == Some(JStr("medgemma"))
  {
  }

  lemma SuccessPassed(analyzed: Json, usage: Option<Json>)
    ensures Get(SuccessBody(analyzed, usage), "condition") == Get(analyzed, "condition")
    ensures Get(SuccessBody(analyzed, usage), "explanation") == Get(analyzed, "explanation")
  {
  }

  lemma SuccessDoctor(analyzed: Json, usage: Option<Json>)
    ensures Get(SuccessBody(analyzed, usage), "doctor") == Get(analyzed, "doctor")
    ensures Get(SuccessBody(analyzed, usage), "usage") == usage
  {
  }

  lemma SuccessLists(analyzed: Json, usage: Option<Json>)
    ensures Get(SuccessBody(analyzed, usage), "causes") == Some(OrEmptyList(Get(analyzed, "causes")))
    ensures Get(SuccessBody(analyzed, usage), "steps") == Some(OrEmptyList(Get(analyzed, "steps")))
  {
  }

  /** A reply whose content does not parse anywhere reaches the client as a 502 carrying it. */
  lemma UnparseableReply(parse: string -> Option<Json>, text: string, engineMessage: string)
    requires Defined(At(Some(TryParse(parse, text)), ContentPath))
    requires ExtractFromContent(parse, At(Some(TryParse(parse, text)), ContentPath).value).Err?
    ensures var r := AnalyzeReply(parse, text, engineMessage);
      && r.status == 502
      && Get(r.body, "error") == Some(JStr(ParseFailedMessage))
      && Get(r.body, "rawContent") == At(Some(TryParse(parse, text)), ContentPath)
  {
  }
}
