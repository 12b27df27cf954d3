/** The logic of the verification page: the rotating banner, how a
    classification is shown, when a verification is sent and with what,
    and when a source gets an external link. */
module VerifyNewsPage {
  import opened Js
  import opened VerifyNewsRequest
  import opened VerifyNewsReply

  // ---------------------------------------------------------------------
  // The banner carousel
  // ---------------------------------------------------------------------

  /** The number of banners (`bannerContent.length`). */
  const BannerCount: int := 3

  /** `(prev + 1) % bannerContent.length`, with JavaScript's `%`. */
  function NextIndex(i: int): (r: int)
    ensures 0 <= i ==> 0 <= r < BannerCount
    ensures 0 <= i ==> r == (i + 1) % BannerCount
  {
    Remainder(i + 1, BannerCount)
  }

  /** `(prev - 1 + bannerContent.length) % bannerContent.length`. For an
      index below -2 the dividend is negative and so is the result. */
  function PrevIndex(i: int): (r: int)
    ensures -2 <= i ==> 0 <= r < BannerCount
    ensures -2 <= i ==> r == (i + 2) % BannerCount
    ensures i < -2 ==> r <= 0
  {
    Remainder(i - 1 + BannerCount, BannerCount)
  }

  /** Previous undoes next, and next undoes previous. */
  lemma PrevUndoesNext(i: int)
    requires 0 <= i < BannerCount
    ensures PrevIndex(NextIndex(i)) == i
    ensures NextIndex(PrevIndex(i)) == i
  {
  }

  /** Three steps forward come back to the start. */
  lemma NextThreeTimesIsIdentity(i: int)
    requires 0 <= i < BannerCount
    ensures NextIndex(NextIndex(NextIndex(i))) == i
  {
  }

  /** The `currentBanner` state cell and the handlers that update it. */
  class BannerCarousel {
    var current: int

    ghost predicate Valid()
      reads this
    {
      0 <= current < BannerCount
    }

    /** `useState(0)`. */
    constructor ()
      ensures Valid() && current == 0
    {
      current := 0;
    }

    /** The right arrow. */
    method Next()
      requires Valid()
      modifies this
      ensures Valid() && current == NextIndex(old(current))
    {
      current := NextIndex(current);
    }

    /** The left arrow. */
    method Prev()
      requires Valid()
      modifies this
      ensures Valid() && current == PrevIndex(old(current))
    {
      current := PrevIndex(current);
    }

    /** The three-second timer: the same step as the right arrow. */
    method Tick()
      requires Valid()
      modifies this
      ensures Valid() && current == NextIndex(old(current))
    {
      current := Remainder(current + 1, BannerCount);
    }

    /** A dot; the page renders one per banner, so `index` is in range. */
    method Select(index: int)
      requires 0 <= index < BannerCount
      modifies this
      ensures Valid() && current == index
      ensures forall d :: 0 <= d < BannerCount ==> (IsCurrentDot(d) <==> d == index)
    {
      current := index;
    }

    /** The dot drawn highlighted. */
    predicate IsCurrentDot(index: int)
      reads this
    {
      index == current
    }
  }

  /** A carousel stepped forward and back again shows the banner it showed
      before. */
  method NextThenPrevRestores(c: BannerCarousel)
    requires c.Valid()
    modifies c
    ensures c.Valid() && c.current == old(c.current)
  {
    c.Next();
    c.Prev();
    PrevUndoesNext(old(c.current));
  }

  // ---------------------------------------------------------------------
  // How a classification is shown
  // ---------------------------------------------------------------------

  /** The three ways a result is shown: the `case "verified"`, the
      `case "false"` and the `default` of each switch. A classification the
      stored record lacks reaches the `default`. */
  datatype Shown = ShownVerified | ShownFalse | ShownDoubtful

  function ShownAs(classification: Option<string>): Shown {
    if classification == Some("verified") then ShownVerified
    else if classification == Some("false") then ShownFalse
    else ShownDoubtful
  }

  datatype Glyph = CheckCircle | XCircle | AlertTriangle

  datatype Icon = Icon(glyph: Glyph, className: string)

  /** `getResultLabel`. */
  function ResultLabel(classification: Option<string>): (r: string)
    ensures classification == Some("verified") <==> r == "Verdadeira"
    ensures classification == Some("false") <==> r == "Falsa"
    ensures classification != Some("verified") && classification != Some("false") <==> r == "Duvidosa"
  {
    match classification
    case Some("verified") => "Verdadeira"
    case Some("false") => "Falsa"
    case _ => "Duvidosa"
  }

  /** `getResultIcon`: the glyph follows the three cases. */
  function ResultIcon(classification: Option<string>): (r: Icon)
    ensures r.glyph == CheckCircle <==> classification == Some("verified")
    ensures r.glyph == XCircle <==> classification == Some("false")
    ensures r.glyph == AlertTriangle <==> ShownAs(classification) == ShownDoubtful
  {
    match classification
    case Some("verified") => Icon(CheckCircle, "h-6 w-6 text-success")
    case Some("false") => Icon(XCircle, "h-6 w-6 text-destructive")
    case _ => Icon(AlertTriangle, "h-6 w-6 text-warning")
  }

  /** `getResultColor`. */
  function ResultColor(classification: Option<string>): (r: string)
    ensures classification == Some("verified") <==> r == "text-success"
    ensures classification == Some("false") <==> r == "text-destructive"
    ensures ShownAs(classification) == ShownDoubtful <==> r == "text-warning"
  {
    match classification
    case Some("verified") => "text-success"
    case Some("false") => "text-destructive"
    case _ => "text-warning"
  }

  /** The icon is drawn in the same colour as the label. */
  lemma {:induction false} IconColouredLikeLabel(classification: Option<string>)
    ensures ResultIcon(classification).className == "h-6 w-6 " + ResultColor(classification)
  {
    match ShownAs(classification)
    case ShownVerified =>
      assert "h-6 w-6 text-success" == "h-6 w-6 " + "text-success";
    case ShownFalse =>
      assert "h-6 w-6 text-destructive" == "h-6 w-6 " + "text-destructive";
    case ShownDoubtful =>
      assert "h-6 w-6 text-warning" == "h-6 w-6 " + "text-warning";
  }

  /** Label, icon and colour each tell the three cases apart and nothing
      more: two classifications get the same label exactly when they get
      the same icon, exactly when they get the same colour, exactly when
      they fall in the same case. */
  lemma DisplayPartitionsAlike(c1: Option<string>, c2: Option<string>)
    ensures ResultLabel(c1) == ResultLabel(c2) <==> ShownAs(c1) == ShownAs(c2)
    ensures ResultIcon(c1) == ResultIcon(c2) <==> ShownAs(c1) == ShownAs(c2)
    ensures ResultColor(c1) == ResultColor(c2) <==> ShownAs(c1) == ShownAs(c2)
  {
  }

  /** A record stored without a classification (the model's JSON lacked
      one) is shown as doubtful, like an unknown classification. */
  lemma MissingClassificationShownDoubtful(other: string)
    requires other != "verified" && other != "false"
    ensures ShownAs(None) == ShownAs(Some(other)) == ShownDoubtful
    ensures ResultLabel(None) == ResultLabel(Some(other)) == "Duvidosa"
    ensures ResultIcon(None).glyph == AlertTriangle
    ensures ResultColor(None) == "text-warning"
  {
  }

  /** The verdict the server falls back to is shown as doubtful. */
  lemma FallbackShownDoubtful()
    ensures ResultLabel(FallbackAnalysis.classification) == "Duvidosa"
    ensures ResultIcon(FallbackAnalysis.classification).glyph == AlertTriangle
  {
  }

  // ---------------------------------------------------------------------
  // Sending a verification
  // ---------------------------------------------------------------------

  /** `!description.trim()` blocks the request; the button is disabled
      while loading or while the description is blank. */
  function SubmitEnabled(isLoading: bool, description: string): (r: bool)
    ensures r <==> !isLoading && !IsBlank(description)
  {
    !isLoading && Trim(description) != ""
  }

  /** When the page is idle, the button is enabled exactly when a click
      would send a request. */
  lemma SubmitEnabledExactlyWhenSent(description: string, url: string)
    ensures SubmitEnabled(false, description) <==> RequestToSend(description, url).Some?
    ensures !SubmitEnabled(true, description)
  {
  }

  /** `url.trim() || undefined`. */
  function UrlToSend(url: string): (r: Option<string>)
    ensures r.None? <==> IsBlank(url)
    ensures r.Some? ==> r.value == Trim(url) && Trim(r.value) == r.value
  {
    var t := Trim(url);
    TrimIdempotent(url);
    if t == "" then None else Some(t)
  }

  /** `handleVerification`: nothing is sent for a blank description;
      otherwise the description as typed, the trimmed url or none, and no
      image. */
  function RequestToSend(description: string, url: string): (r: Option<VerificationRequest>)
    ensures r.None? <==> IsBlank(description)
    ensures r.Some? ==> r.value == VerificationRequest(Some(description), UrlToSend(url), None)
  {
    if Trim(description) == "" then None
    else Some(VerificationRequest(Some(description), UrlToSend(url), None))
  }

  /** Whatever the page sends passes the server's presence check, and its
      content reaches the analysis text, so the fallback sentence is never
      used for it. */
  lemma {:induction false} SentRequestsAreAnalysed(description: string, url: string)
    requires RequestToSend(description, url).Some?
    ensures var req := RequestToSend(description, url).value;
      && HasInput(req)
      && Contributes(req.content)
      && AnalysisText(req) != FallbackText
  {
    var req := RequestToSend(description, url).value;
    assert !IsBlank(description);
    var k :| 0 <= k < |description| && !IsWhitespace(description[k]);
    FallbackExactlyWhenNothingContributes(req);
  }

  // ---------------------------------------------------------------------
  // Source links
  // ---------------------------------------------------------------------

  /** `source.url && source.url !== '#'`: only a present, non-empty url
      is linked, and never the placeholder. */
  function LinkShown(url: Option<string>): (r: bool)
    ensures r ==> url.Some? && |url.value| > 0
    ensures url == Some(Placeholder) ==> !r
    ensures r <==> OrElse(url, Placeholder) != Placeholder
  {
    Truthy(url) && url.value != Placeholder
  }

  /** After the server's normalisation a source is linked exactly when it
      came with a truthy url other than the placeholder: a placeholder the
      server put in is never linked. */
  lemma LinkShownAfterNormalisation(sources: seq<Source>, k: int)
    requires 0 <= k < |sources|
    ensures LinkShown(NormaliseSources(sources)[k].url) <==> LinkShown(sources[k].url)
    ensures !Truthy(sources[k].url) ==> !LinkShown(NormaliseSources(sources)[k].url)
  {
  }
}
