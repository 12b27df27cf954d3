/** The request side of the `verify-news` edge function: the claim a caller
    submits, the check that something was submitted, and the analysis text
    that is embedded in the prompt sent to the language model. */
module VerifyNewsRequest {
  import opened Js

  newtype Byte = b: int | 0 <= b < 256

  /** An attached image. The handler only tests whether one is present and
      hands its bytes to the blob store. */
  datatype ImageFile = ImageFile(bytes: seq<Byte>)

  /** The decoded request body: every field may be missing, and a missing
      text field behaves like the empty string. */
  datatype VerificationRequest = VerificationRequest(
    content: Option<string>,
    url: Option<string>,
    imageFile: Option<ImageFile>)

  /** The presence check: the request carries a truthy content, a truthy url
      or an image. A request failing it is rejected with status 400. */
  predicate HasInput(req: VerificationRequest)
    ensures Contributes(req.content) || Contributes(req.url) || req.imageFile.Some? ==> HasInput(req)
  {
    Truthy(req.content) || Truthy(req.url) || req.imageFile.Some?
  }

  const ContentLabel: string := "TEXTO/CONTEÚDO: "
  const UrlLabel: string := "\nURL: "
  const ImageMarker: string := "\nIMAGEM: " + "Análise de imagem fornecida pelo usuário"
  const FallbackText: string := "Conteúdo muito curto " + "ou indefinido fornecido para análise"

  /** `s && s.trim()`: the field is present and has a non-whitespace character. */
  predicate Contributes(s: Option<string>) {
    Truthy(s) && Trim(s.value) != ""
  }

  /** The text a field adds to the analysis text: its label and its trimmed
      value, or nothing. */
  function Segment(tag: string, s: Option<string>): string {
    if Contributes(s) then tag + Trim(s.value) else ""
  }

  function ImageSegment(req: VerificationRequest): string {
    if req.imageFile.Some? then ImageMarker else ""
  }

  /** The segments in their fixed order: content, url, image marker. */
  function Segments(req: VerificationRequest): string {
    Segment(ContentLabel, req.content) + Segment(UrlLabel, req.url) + ImageSegment(req)
  }

  /** The analysis text: the segments, or the fallback sentence when they
      amount to whitespace only. */
  function AnalysisText(req: VerificationRequest): (r: string)
    ensures !IsBlank(r)
  {
    var body := Segments(req);
    if Trim(body) == "" then
      assert FallbackText[0] == 'C';
      FallbackText
    else body
  }

  /** The handler's step-by-step assembly of `analysisContent`: start empty,
      append each contributing segment, then replace a blank result by the
      fallback sentence. */
  method BuildAnalysisContent(req: VerificationRequest) returns (analysisContent: string)
    ensures analysisContent == AnalysisText(req)
    ensures !IsBlank(analysisContent)
  {
    analysisContent := "";
    if Truthy(req.content) && Trim(req.content.value) != "" {
      analysisContent := analysisContent + (ContentLabel + Trim(req.content.value));
    }
    assert analysisContent == Segment(ContentLabel, req.content);
    if Truthy(req.url) && Trim(req.url.value) != "" {
      analysisContent := analysisContent + (UrlLabel + Trim(req.url.value));
    }
    assert analysisContent == Segment(ContentLabel, req.content) + Segment(UrlLabel, req.url);
    if req.imageFile.Some? {
      analysisContent := analysisContent + ImageMarker;
    }
    assert analysisContent == Segments(req);
    if Trim(analysisContent) == "" {
      analysisContent := FallbackText;
    }
  }

  /** A field contributes exactly when it holds a non-whitespace character. */
  lemma ContributesIffNotBlank(s: Option<string>)
    ensures Contributes(s) <==> s.Some? && !IsBlank(s.value)
  {
  }

  /** A non-empty segment starts with a character that is not whitespace
      (`T`) or with a line feed followed by one (`U` or `I`). */
  lemma {:induction false} SegmentsStart(req: VerificationRequest)
    requires Contributes(req.content) || Contributes(req.url) || req.imageFile.Some?
    ensures var s := Segments(req);
      |s| >= 2 && (s[0] == 'T' || (s[0] == '\n' && (s[1] == 'U' || s[1] == 'I')))
  {
    var c := Segment(ContentLabel, req.content);
    var u := Segment(UrlLabel, req.url);
    var m := ImageSegment(req);
    var s := Segments(req);
    assert s == c + u + m;
    if c != "" {
      SegmentHead(ContentLabel, req.content);
      assert s[0] == c[0];
    } else if u != "" {
      SegmentHead(UrlLabel, req.url);
      assert s == u + m;
      assert s[0] == u[0] && s[1] == u[1];
    } else {
      assert s == ImageMarker;
      assert ImageMarker[0] == '\n' && ImageMarker[1] == 'I';
    }
  }

  /** A non-empty segment begins with its label. */
  lemma SegmentHead(tag: string, s: Option<string>)
    requires Segment(tag, s) != ""
    ensures |Segment(tag, s)| >= |tag| && Segment(tag, s)[..|tag|] == tag
  {
    assert Segment(tag, s) == tag + Trim(s.value);
  }

  /** So the segments are never blank and never the fallback sentence. */
  lemma SegmentsNotBlank(req: VerificationRequest)
    requires Contributes(req.content) || Contributes(req.url) || req.imageFile.Some?
    ensures !IsBlank(Segments(req))
    ensures Segments(req) != FallbackText
  {
    SegmentsStart(req);
    var s := Segments(req);
    assert !IsWhitespace(s[0]) || !IsWhitespace(s[1]);
    assert FallbackText[0] == 'C';
  }

  /** The analysis text is the fallback sentence exactly when neither the
      trimmed content, nor the trimmed url, nor an image contributes. */
  lemma FallbackExactlyWhenNothingContributes(req: VerificationRequest)
    ensures AnalysisText(req) == FallbackText
        <==> !Contributes(req.content) && !Contributes(req.url) && req.imageFile.None?
  {
    if Contributes(req.content) || Contributes(req.url) || req.imageFile.Some? {
      SegmentsNotBlank(req);
    }
  }

  /** When something contributes, the analysis text holds the trimmed
      content first, the trimmed url right after it and the image marker
      last, each one present exactly when its field contributes. */
  lemma SegmentsInOrder(req: VerificationRequest)
    requires Contributes(req.content) || Contributes(req.url) || req.imageFile.Some?
    ensures var r := AnalysisText(req);
      var c := if Contributes(req.content) then ContentLabel + Trim(req.content.value) else "";
      var u := if Contributes(req.url) then UrlLabel + Trim(req.url.value) else "";
      && StartsWith(r, c)
      && OccursAt(r, u, |c|)
      && |r| == |c| + |u| + (if req.imageFile.Some? then |ImageMarker| else 0)
      && (req.imageFile.Some? ==> r[|c| + |u|..] == ImageMarker)
  {
    SegmentsNotBlank(req);
    var r := AnalysisText(req);
    var c := Segment(ContentLabel, req.content);
    var u := Segment(UrlLabel, req.url);
    assert r == c + u + ImageSegment(req);
    assert r[..|c|] == c;
    assert r[|c|..|c| + |u|] == u;
  }

  /** Content made of whitespace only passes the presence check (it is a
      non-empty string) but adds nothing to the analysis text. */
  lemma WhitespaceContentAddsNothing(req: VerificationRequest)
    requires Truthy(req.content) && IsBlank(req.content.value)
    ensures HasInput(req)
    ensures AnalysisText(req) == AnalysisText(req.(content := None))
  {
  }

  /** A segment sees its field only through `trim`. */
  lemma {:induction false} SegmentOfTrimmed(tag: string, s: Option<string>)
    ensures Segment(tag, if s.Some? then Some(Trim(s.value)) else None) == Segment(tag, s)
  {
    if s.Some? {
      TrimIdempotent(s.value);
    }
  }

  /** The analysis text sees its text fields only through `trim`:
      trimming them first changes nothing. */
  lemma {:induction false} AnalysisTextSeesTrimmedFields(req: VerificationRequest)
    ensures var t := req.(content := if req.content.Some? then Some(Trim(req.content.value)) else None,
                          url := if req.url.Some? then Some(Trim(req.url.value)) else None);
      AnalysisText(t) == AnalysisText(req)
  {
    SegmentOfTrimmed(ContentLabel, req.content);
    SegmentOfTrimmed(UrlLabel, req.url);
  }
}
