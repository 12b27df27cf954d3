/** The reply side of the `verify-news` edge function: cutting the JSON text
    out of the language model's reply, the fixed verdict used when that text
    does not parse, the defaults applied before the record is stored, and
    the placeholder given to sources without a link. */
module VerifyNewsReply {
  import opened Js

  datatype Criterion = Criterion(name: string, status: bool)

  /** A cited source; its `url` may be missing or empty. */
  datatype Source = Source(name: string, url: Option<string>, verified: bool)

  /** The object the model's JSON text decodes to. Any field may be missing. */
  datatype Analysis = Analysis(
    classification: Option<string>,
    score: Option<int>,
    explanation: Option<string>,
    criteria: Option<seq<Criterion>>,
    sources: Option<seq<Source>>)

  // ---------------------------------------------------------------------
  // Extracting the JSON text from the reply
  // ---------------------------------------------------------------------

  const FenceOpen: string := "```json\n"
  const FenceClose: string := "\n```"

  /** The fence regex `/```json\n(.*?)\n```/s` matches at `i` with its
      closing line feed at `j`: the opening marker starts at `i`, the lazy
      group runs from `i + 8` to `j`, and no closing marker starts earlier
      inside the group. */
  predicate FenceAt(s: string, i: int, j: int) {
    && OccursAt(s, FenceOpen, i)
    && i + |FenceOpen| <= j
    && OccursAt(s, FenceClose, j)
    && forall k :: i + |FenceOpen| <= k < j ==> !OccursAt(s, FenceClose, k)
  }

  /** The first match of the fence regex, as the pair (start of the match,
      start of its closing marker). A regex match is the leftmost one. */
  function FenceMatch(s: string): (r: Option<(nat, nat)>)
    ensures r.Some? ==> FenceAt(s, r.value.0, r.value.1)
    ensures r.Some? ==> forall i, j :: 0 <= i < r.value.0 ==> !FenceAt(s, i, j)
    ensures r.None? ==> forall i, j :: !FenceAt(s, i, j)
  {
    match IndexOf(s, FenceOpen, 0)
    case None => None
    case Some(i) =>
      match IndexOf(s, FenceClose, i + |FenceOpen|)
      case None => None
      case Some(j) => Some((i, j))
  }

  /** The match of the greedy regex `/\{.*\}/s`: from the first `{` that
      has a `}` after it to the last `}`. */
  function BraceSpan(s: string): (r: Option<(nat, nat)>)
    ensures r.Some? ==> r.value.0 < r.value.1 < |s|
    ensures r.Some? ==> s[r.value.0] == '{' && s[r.value.1] == '}'
    ensures r.Some? ==> forall k :: 0 <= k < r.value.0 ==> s[k] != '{'
    ensures r.Some? ==> forall k :: r.value.1 < k < |s| ==> s[k] != '}'
    ensures r.None? ==> forall i, k :: 0 <= i < k < |s| && s[i] == '{' ==> s[k] != '}'
  {
    match FirstIndexOf(s, '{')
    case None => None
    case Some(a) =>
      match LastIndexOf(s, '}')
      case None => None
      case Some(b) => if a < b then Some((a, b)) else None
  }

  /** `jsonMatch ? jsonMatch[1] || jsonMatch[0] : analysisText`: the fenced
      group when it is not empty, else the whole fence match, else the
      brace span, else the whole reply. */
  function JsonText(reply: string): (r: string)
    ensures |r| <= |reply|
  {
    match FenceMatch(reply)
    case Some((i, j)) =>
      if i + |FenceOpen| < j then reply[i + |FenceOpen|..j] else reply[i..j + |FenceClose|]
    case None =>
      match BraceSpan(reply)
      case Some((a, b)) => reply[a..b + 1]
      case None => reply
  }

  /** The reply a model gives when it wraps its JSON text in a fence. */
  function Fenced(json: string): string {
    FenceOpen + json + FenceClose
  }

  /** Inside `Fenced(json)`, no closing marker starts before the one the
      wrapper adds, when `json` holds none of its own. */
  lemma {:induction false} NoEarlierClose(json: string, k: int)
    requires forall p :: !OccursAt(json, FenceClose, p)
    requires |FenceOpen| <= k < |FenceOpen| + |json|
    ensures !OccursAt(Fenced(json), FenceClose, k)
  {
    var s := Fenced(json);
    var e := |FenceOpen| + |json|;
    if k + |FenceClose| <= e {
      assert s[k..k + |FenceClose|] == json[k - |FenceOpen|..k - |FenceOpen| + |FenceClose|];
      assert !OccursAt(json, FenceClose, k - |FenceOpen|);
    } else {
      assert s[e] == '\n' != FenceClose[e - k];
    }
  }

  /** Round trip: a non-empty JSON text without a closing marker of its own,
      wrapped in a fence, is extracted unchanged. */
  lemma FencedRoundTrip(json: string)
    requires json != ""
    requires forall p :: !OccursAt(json, FenceClose, p)
    ensures JsonText(Fenced(json)) == json
  {
    var s := Fenced(json);
    var e := |FenceOpen| + |json|;
    assert s[..|FenceOpen|] == FenceOpen;
    assert s[e..] == FenceClose;
    forall k | |FenceOpen| <= k < e
      ensures !OccursAt(s, FenceClose, k)
    {
      NoEarlierClose(json, k);
    }
    assert FenceAt(s, 0, e);
    var m := FenceMatch(s);
    assert m.Some? && m.value.0 == 0;
    assert m.value.1 == e;
    assert s[|FenceOpen|..e] == json;
  }

  /** A bare JSON object (from `{` to `}`, holding no opening marker) is
      extracted unchanged. */
  lemma BareObjectUnchanged(json: string)
    requires |json| >= 2 && json[0] == '{' && json[|json| - 1] == '}'
    requires forall p :: !OccursAt(json, FenceOpen, p)
    ensures JsonText(json) == json
  {
    var b := BraceSpan(json);
    assert b.Some? by {
      if b.None? {
        assert json[0] == '{' && json[|json| - 1] == '}';
      }
    }
    assert b.value.0 == 0;
    assert b.value.1 == |json| - 1;
  }

  /** Wherever the leftmost fence stands, with prose before it or other
      fences after it, a non-empty group is the JSON text. */
  lemma FencedGroupExtracted(reply: string, i: nat, j: nat)
    requires FenceAt(reply, i, j) && i + |FenceOpen| < j
    requires forall i', j' :: 0 <= i' < i ==> !FenceAt(reply, i', j')
    ensures JsonText(reply) == reply[i + |FenceOpen|..j]
  {
    var m := FenceMatch(reply);
    assert m.Some? && m.value.0 == i;
    assert m.value.1 == j;
  }

  /** A fenced reply and the bare object it wraps give the same JSON text. */
  lemma FencedLikeBare(json: string)
    requires |json| >= 2 && json[0] == '{' && json[|json| - 1] == '}'
    requires forall p :: !OccursAt(json, FenceOpen, p)
    requires forall p :: !OccursAt(json, FenceClose, p)
    ensures JsonText(Fenced(json)) == JsonText(json) == json
  {
    FencedRoundTrip(json);
    BareObjectUnchanged(json);
  }

  /** A fence with an empty group (`jsonMatch[1] == ""`) falls through to
      the whole fence match. */
  lemma EmptyFenceFallsThrough(reply: string, i: nat)
    requires FenceAt(reply, i, i + |FenceOpen|)
    requires forall i', j :: 0 <= i' < i ==> !FenceAt(reply, i', j)
    ensures JsonText(reply) == FenceOpen + FenceClose
  {
    var m := FenceMatch(reply);
    assert m.Some?;
    assert m.value.0 == i;
    assert m.value.1 == i + |FenceOpen|;
    assert reply[i..i + |FenceOpen| + |FenceClose|]
        == reply[i..i + |FenceOpen|] + reply[i + |FenceOpen|..i + |FenceOpen| + |FenceClose|];
  }

  /** With no fence match, the text runs from the first `{` to the last `}`. */
  lemma BraceSpanWithoutFence(reply: string, a: nat, b: nat)
    requires forall i, j :: !FenceAt(reply, i, j)
    requires a < b < |reply| && reply[a] == '{' && reply[b] == '}'
    requires forall k :: 0 <= k < a ==> reply[k] != '{'
    requires forall k :: b < k < |reply| ==> reply[k] != '}'
    ensures JsonText(reply) == reply[a..b + 1]
  {
    var m := BraceSpan(reply);
    assert m.Some?;
    assert m.value == (a, b);
  }

  /** With neither a fence match nor a `{` before a `}`, the whole reply is
      the JSON text. */
  lemma WholeReplyWithoutMatch(reply: string)
    requires forall i, j :: !FenceAt(reply, i, j)
    requires forall i, k :: 0 <= i < k < |reply| && reply[i] == '{' ==> reply[k] != '}'
    ensures JsonText(reply) == reply
  {
    var m := BraceSpan(reply);
    assert m.None?;
  }

  // ---------------------------------------------------------------------
  // The verdict
  // ---------------------------------------------------------------------

  const FallbackExplanation: string :=
    "Não foi possível analisar completamente a informação. " + "Recomenda-se verificação manual."

  /** The fixed verdict used when the JSON text does not parse. */
  const FallbackAnalysis: Analysis := Analysis(
    Some("partial"),
    Some(50),
    Some(FallbackExplanation),
    Some([Criterion("Análise automatizada", false)]),
    Some([]))

  /** The analysis of a reply: what the JSON text parses to, or the fixed
      verdict when parsing fails. `parse` stands for `JSON.parse`. */
  function AnalysisOf(reply: string, parse: string -> Option<Analysis>): (r: Analysis)
    ensures parse(JsonText(reply)).Some? ==> Some(r) == parse(JsonText(reply))
    ensures parse(JsonText(reply)).None? ==> r == FallbackAnalysis
  {
    match parse(JsonText(reply))
    case Some(a) => a
    case None => FallbackAnalysis
  }

  /** A reply whose JSON text does not parse yields the verdict "partial",
      score 50, the fixed explanation, one failed criterion and no source. */
  lemma UnparsableReplyGivesFallback(reply: string, parse: string -> Option<Analysis>)
    requires parse(JsonText(reply)).None?
    ensures var a := AnalysisOf(reply, parse);
      && a.classification == Some("partial")
      && a.score == Some(50)
      && a.explanation == Some(FallbackExplanation)
      && a.criteria == Some([Criterion("Análise automatizada", false)])
      && a.sources == Some([])
  {
  }

  /** A fenced reply is analysed exactly like the bare object it wraps,
      whatever `JSON.parse` does. */
  lemma FencedReplyAnalysedLikeBare(json: string, parse: string -> Option<Analysis>)
    requires |json| >= 2 && json[0] == '{' && json[|json| - 1] == '}'
    requires forall p :: !OccursAt(json, FenceOpen, p)
    requires forall p :: !OccursAt(json, FenceClose, p)
    ensures AnalysisOf(Fenced(json), parse) == AnalysisOf(json, parse)
  {
    FencedLikeBare(json);
  }

  /** `analysis.sources || []` and `analysis.criteria || []`. */
  function SourcesOrEmpty(a: Analysis): (r: seq<Source>)
    ensures a.sources.Some? ==> r == a.sources.value
    ensures a.sources.None? ==> r == []
  {
    a.sources.GetOr([])
  }

  function CriteriaOrEmpty(a: Analysis): (r: seq<Criterion>)
    ensures a.criteria.Some? ==> r == a.criteria.value
    ensures a.criteria.None? ==> r == []
  {
    a.criteria.GetOr([])
  }

  // ---------------------------------------------------------------------
  // Normalising the sources returned to the caller
  // ---------------------------------------------------------------------

  const Placeholder: string := "#"

  /** `{ ...source, url: source.url || '#' }`. */
  function NormaliseSource(src: Source): (r: Source)
    ensures r.name == src.name && r.verified == src.verified
    ensures Truthy(r.url)
    ensures Truthy(src.url) ==> r.url == src.url
    ensures !Truthy(src.url) ==> r.url == Some(Placeholder)
  {
    src.(url := Some(OrElse(src.url, Placeholder)))
  }

  /** `sources.map(...)`: every source keeps its name, its flag and its
      place; a truthy url is kept and any other becomes the placeholder. */
  function NormaliseSources(sources: seq<Source>): (r: seq<Source>)
    ensures |r| == |sources|
    ensures forall k :: 0 <= k < |r| ==>
      && r[k].name == sources[k].name
      && r[k].verified == sources[k].verified
      && (Truthy(sources[k].url) ==> r[k].url == sources[k].url)
      && (!Truthy(sources[k].url) ==> r[k].url == Some(Placeholder))
  {
    if sources == [] then []
    else [NormaliseSource(sources[0])] + NormaliseSources(sources[1..])
  }

  /** After normalisation every url is present and non-empty. */
  lemma NormalisedUrlsTruthy(sources: seq<Source>)
    ensures forall k :: 0 <= k < |sources| ==> Truthy(NormaliseSources(sources)[k].url)
  {
  }

  /** Normalising twice is normalising once. */
  lemma {:induction false} NormaliseIdempotent(sources: seq<Source>)
    ensures NormaliseSources(NormaliseSources(sources)) == NormaliseSources(sources)
  {
    if sources != [] {
      NormaliseIdempotent(sources[1..]);
      var n := NormaliseSources(sources);
      assert n[1..] == NormaliseSources(sources[1..]);
    }
  }
}
