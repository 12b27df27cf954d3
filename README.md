# CTD news verification: a Dafny model

CTD ("Contra Toda Desinformação") is a fact-checking web application. A
visitor types a claim, optionally with a link, on the verification page.
The page sends it to the `verify-news` edge function. That function:

- checks that some input was given;
- assembles an analysis text from the trimmed fields;
- asks a language model for a verdict;
- cuts the JSON text out of the model's reply, or falls back to a fixed
  "partial" verdict when that text does not parse;
- stores the verdict, with any uploaded image, in the database;
- returns the stored record, with every source given a link or the
  placeholder `#`.

The page shows the verdict as true, false or doubtful, and runs a
three-banner carousel. The site header highlights the navigation item of
the current path and keeps the mobile menu open or closed.

The model has one module per concern:

- `Js` (`js.dfy`): the JavaScript semantics the code relies on. This covers
  the truthiness of strings, `||` on strings, `trim` with the ECMAScript
  whitespace set, `startsWith`, the truncating `%`, and the decimal
  printing of a status code. It also holds the model's own search helpers
  (`IndexOf`, `FirstIndexOf`, `LastIndexOf`), on which the two regular
  expressions of the reply extraction are defined; the source itself calls
  none of them.
- `VerifyNewsRequest` (`verify_news_request.dfy`): the request, the
  presence check, and the assembly of the analysis text. The assembly is
  written two ways: as a function, and as the handler's step-by-step
  appends, a method proved equal to that function.
- `VerifyNewsReply` (`verify_news_reply.dfy`): the fence regex and the
  brace regex as leftmost matches, the extracted JSON text, the fallback
  verdict, the `|| []` defaults, and the source url normalisation.
- `VerifyNewsHandler` (`verify_news_handler.dfy`): the whole handler as one
  method. Its inputs are the outcomes of every external interaction: the
  environment, the decoded body, the model call, `JSON.parse`, the upload
  and the insert. It returns the response and the ordered list of external
  calls it made.
- `VerifyNewsPage` (`verify_news_page.dfy`): the banner carousel (a class
  over the `currentBanner` state cell), the result label, icon and colour,
  the request the page sends, and when a source is linked.
- `Header` (`header.dfy`): `isActivePage` over the navigation items, and
  the mobile menu (a class over the `isMobileMenuOpen` state cell).

Two behaviours of the handler worth knowing:

- An `OPTIONS` preflight is answered with the CORS headers and the
  default status 200 (supabase/functions/verify-news/index.ts:29-31).
- The store URL and service key have no check of their own: the store
  client is created at index.ts:55, the client library throws when either
  is missing, and the catch at index.ts:265-276 answers 500 with its
  message, before the body is read. The model takes that outcome as the
  `ClientOutcome` input; the library's message text is not modelled.

## Model

| member | source | states |
|---|---|---|
| Js.OrElse | supabase/functions/verify-news/index.ts:258 | the `or` of an optional string and a fallback: a truthy value is kept; a missing or empty one gives the fallback |
| Js.Trim | supabase/functions/verify-news/index.ts:101-105 | `trim` never lengthens a string. What is left starts and ends with non-whitespace, and it is empty exactly when the input is all whitespace |
| Js.TrimIsInfix | supabase/functions/verify-news/index.ts:101-105 | `trim` returns a slice `s[a..b]` of its input, with only whitespace before `a` and after `b` |
| Js.TrimIdempotent | supabase/functions/verify-news/index.ts:101-105 | trimming twice is trimming once |
| Js.IndexOf | supabase/functions/verify-news/index.ts:196 | substring search returns the leftmost occurrence at or after the start index, or none when there is no occurrence |
| Js.FirstIndexOf | supabase/functions/verify-news/index.ts:196 | returns the first position of a character, or none when the character does not occur |
| Js.LastIndexOf | supabase/functions/verify-news/index.ts:196 | returns the last position of a character, or none when the character does not occur |
| Js.Remainder | src/pages/VerifyNews.tsx:86-92 | JavaScript `%` with a positive divisor: the result takes the sign of the dividend, and its magnitude is the remainder of the dividend's magnitude. So a non-negative dividend gives the Euclidean remainder in [0, n), and a negative one gives a result in (-n, 0] |
| Js.DecimalString | supabase/functions/verify-news/index.ts:177 | the printed status code is a non-empty string of digits that spells the number, with no leading zero |
| VerifyNewsRequest.HasInput | supabase/functions/verify-news/index.ts:86 | the presence check passes whenever any field would contribute to the analysis text |
| VerifyNewsRequest.AnalysisText | supabase/functions/verify-news/index.ts:100-114 | the analysis text is never blank |
| VerifyNewsRequest.BuildAnalysisContent | supabase/functions/verify-news/index.ts:100-114 | the step-by-step appends and the fallback replacement produce exactly `AnalysisText`, which is never blank |
| VerifyNewsRequest.ContributesIffNotBlank | supabase/functions/verify-news/index.ts:101-105 | `s && s.trim()` holds exactly when the field is present and has a non-whitespace character |
| VerifyNewsRequest.SegmentsStart | supabase/functions/verify-news/index.ts:100-109 | when any field contributes, the appended text starts with `T`, or with a line feed followed by `U` or `I` |
| VerifyNewsRequest.SegmentsNotBlank | supabase/functions/verify-news/index.ts:100-114 | when any field contributes, the appended text is neither blank nor the fallback sentence |
| VerifyNewsRequest.FallbackExactlyWhenNothingContributes | supabase/functions/verify-news/index.ts:100-114 | the fallback sentence is used exactly when neither trimmed content, nor trimmed url, nor an image contributes |
| VerifyNewsRequest.SegmentsInOrder | supabase/functions/verify-news/index.ts:100-109 | the labelled trimmed content comes first, the labelled trimmed url right after it, and the image marker last. Each is present exactly when its field contributes |
| VerifyNewsRequest.WhitespaceContentAddsNothing | supabase/functions/verify-news/index.ts:86-114 | whitespace-only content passes the presence check, but the analysis text is the same as with no content |
| VerifyNewsRequest.SegmentOfTrimmed | supabase/functions/verify-news/index.ts:101-105 | a field's segment depends only on the trimmed field |
| VerifyNewsRequest.AnalysisTextSeesTrimmedFields | supabase/functions/verify-news/index.ts:100-114 | trimming content and url before assembly leaves the analysis text unchanged |
| VerifyNewsReply.FenceMatch | supabase/functions/verify-news/index.ts:196 | the fence regex match is a fence at the leftmost possible start, with the lazy group closing at the first closing marker; it is none when no fence exists |
| VerifyNewsReply.BraceSpan | supabase/functions/verify-news/index.ts:196 | the brace regex match runs from the first `{` to the last `}`; it is none when no `{` has a `}` after it |
| VerifyNewsReply.JsonText | supabase/functions/verify-news/index.ts:196-197 | the extracted JSON text is never longer than the reply |
| VerifyNewsReply.NoEarlierClose | supabase/functions/verify-news/index.ts:196 | inside a fenced text that has no closing marker of its own, no closing marker starts before the wrapper's |
| VerifyNewsReply.FencedRoundTrip | supabase/functions/verify-news/index.ts:196-197 | a non-empty JSON text without a closing marker, wrapped in a fence, is extracted back unchanged |
| VerifyNewsReply.BareObjectUnchanged | supabase/functions/verify-news/index.ts:196-197 | a bare object from `{` to `}` with no opening marker is extracted whole |
| VerifyNewsReply.FencedLikeBare | supabase/functions/verify-news/index.ts:196-197 | a fenced object and the bare object give the same JSON text |
| VerifyNewsReply.EmptyFenceFallsThrough | supabase/functions/verify-news/index.ts:197 | an empty fenced group falls through to the whole fence match (group 0 is used when group 1 is empty) |
| VerifyNewsReply.FencedGroupExtracted | supabase/functions/verify-news/index.ts:196-197 | wherever the leftmost fence stands (prose before it, other fences after it), its non-empty group is the JSON text |
| VerifyNewsReply.BraceSpanWithoutFence | supabase/functions/verify-news/index.ts:196-197 | with no fence, the JSON text is the span from the first `{` to the last `}` |
| VerifyNewsReply.WholeReplyWithoutMatch | supabase/functions/verify-news/index.ts:197 | with neither regex matching, the whole reply is the JSON text |
| VerifyNewsReply.AnalysisOf | supabase/functions/verify-news/index.ts:193-211 | the analysis is what the parser makes of the extracted JSON text when it succeeds, and the fixed verdict when it fails |
| VerifyNewsReply.UnparsableReplyGivesFallback | supabase/functions/verify-news/index.ts:193-211 | a reply whose JSON text does not parse gets the fixed verdict: partial, score 50, the fixed explanation, one failed criterion, no sources |
| VerifyNewsReply.FencedReplyAnalysedLikeBare | supabase/functions/verify-news/index.ts:193-198 | a fenced reply and the bare object it wraps get the same analysis, whatever the parser does |
| VerifyNewsReply.SourcesOrEmpty | supabase/functions/verify-news/index.ts:238 | the stored sources are the analysis's own when present, else empty |
| VerifyNewsReply.CriteriaOrEmpty | supabase/functions/verify-news/index.ts:239 | the stored criteria are the analysis's own when present, else empty |
| VerifyNewsReply.NormaliseSource | supabase/functions/verify-news/index.ts:257-258 | one source keeps its name and flag, keeps a truthy url, gets `#` otherwise, and always ends with a truthy url |
| VerifyNewsReply.NormaliseSources | supabase/functions/verify-news/index.ts:256-259 | normalisation keeps the count, each name, each verified flag and each truthy url. Any other url becomes `#` |
| VerifyNewsReply.NormalisedUrlsTruthy | supabase/functions/verify-news/index.ts:256-259 | every returned source url is present and non-empty |
| VerifyNewsReply.NormaliseIdempotent | supabase/functions/verify-news/index.ts:256-259 | normalising twice is normalising once |
| VerifyNewsHandler.CaughtMessage | supabase/functions/verify-news/index.ts:271 | the error body carries the caught error's message when it is non-empty, and the internal-error message otherwise; it is never empty |
| VerifyNewsHandler.ModelStatusMessage | supabase/functions/verify-news/index.ts:177 | the model-failure message is the fixed prefix, then the decimal status, then " - ", then the error text |
| VerifyNewsHandler.RowOf | supabase/functions/verify-news/index.ts:232-241 | the inserted row keeps the request's untrimmed content and url, takes the verdict fields from the analysis, defaults missing lists to empty, and records the image url |
| VerifyNewsHandler.Returned | supabase/functions/verify-news/index.ts:252-260 | the returned record keeps the stored fields, id and timestamp. Its sources keep count, names, flags and truthy urls, and every url is truthy |
| VerifyNewsHandler.StoredImageUrl | supabase/functions/verify-news/index.ts:213-227 | an image url is recorded exactly when an image was sent and its upload succeeded, and it is the upload's public url |
| VerifyNewsHandler.AnalyseAndStore | supabase/functions/verify-news/index.ts:192-263 | after a model reply: an upload exactly when there is an image, then one insert of the row built from `AnalysisOf`; success exactly when the insert succeeds, else the save error; every returned url truthy; an unparsable reply stores the fixed verdict |
| VerifyNewsHandler.Handle | supabase/functions/verify-news/index.ts:28-277 | the early exits, in order and with no external call (including a store client that fails to be created); 400 exactly when the presence check fails; then one model call with `AnalysisText`; each model failure with its message; an upload exactly when an image was sent; one insert of the row built from `AnalysisOf`; success exactly when accepted, answered and inserted; every returned url truthy (details below) |
| VerifyNewsPage.NextIndex | src/pages/VerifyNews.tsx:86-88 | from any non-negative index, the next index is `(i + 1) mod 3`, in range |
| VerifyNewsPage.PrevIndex | src/pages/VerifyNews.tsx:90-92 | from any index of at least -2, the previous index is `(i + 2) mod 3`, in range; below -2 it is not positive |
| VerifyNewsPage.PrevUndoesNext | src/pages/VerifyNews.tsx:86-92 | previous undoes next, and next undoes previous |
| VerifyNewsPage.NextThreeTimesIsIdentity | src/pages/VerifyNews.tsx:79-88 | three forward steps (arrow or timer) return to the same banner |
| VerifyNewsPage.BannerCarousel.constructor | src/pages/VerifyNews.tsx:16 | the carousel starts at banner 0 |
| VerifyNewsPage.BannerCarousel.Next | src/pages/VerifyNews.tsx:86-88 | the right arrow moves to the next index and keeps it in range |
| VerifyNewsPage.BannerCarousel.Prev | src/pages/VerifyNews.tsx:90-92 | the left arrow moves to the previous index and keeps it in range |
| VerifyNewsPage.BannerCarousel.Tick | src/pages/VerifyNews.tsx:79-84 | the timer makes the same step as the right arrow |
| VerifyNewsPage.BannerCarousel.Select | src/pages/VerifyNews.tsx:232-239 | a dot selects its banner, and that dot alone is highlighted |
| VerifyNewsPage.NextThenPrevRestores | src/pages/VerifyNews.tsx:86-92 | right arrow then left arrow restores the shown banner |
| VerifyNewsPage.ResultLabel | src/pages/VerifyNews.tsx:150-159 | "Verdadeira" exactly for `verified`, "Falsa" exactly for `false`, and "Duvidosa" exactly for anything else, a missing classification included |
| VerifyNewsPage.ResultIcon | src/pages/VerifyNews.tsx:139-148 | the check glyph exactly for `verified`, the cross exactly for `false`, the warning triangle exactly for anything else, a missing classification included |
| VerifyNewsPage.ResultColor | src/pages/VerifyNews.tsx:161-170 | `text-success` exactly for `verified`, `text-destructive` exactly for `false`, `text-warning` exactly for anything else, a missing classification included |
| VerifyNewsPage.IconColouredLikeLabel | src/pages/VerifyNews.tsx:139-170 | the icon is drawn in the colour `getResultColor` gives the label |
| VerifyNewsPage.DisplayPartitionsAlike | src/pages/VerifyNews.tsx:139-170 | label, icon and colour each split classifications into the same three classes |
| VerifyNewsPage.MissingClassificationShownDoubtful | src/pages/VerifyNews.tsx:139-170 | a record stored without a classification is shown like an unknown one: "Duvidosa", the warning icon, `text-warning` |
| VerifyNewsPage.FallbackShownDoubtful | src/pages/VerifyNews.tsx:139-159 | the server's fallback verdict is shown as doubtful, with the warning icon |
| VerifyNewsPage.SubmitEnabled | src/pages/VerifyNews.tsx:317 | the button is enabled exactly when not loading and the description holds a non-whitespace character |
| VerifyNewsPage.SubmitEnabledExactlyWhenSent | src/pages/VerifyNews.tsx:317 | when idle, the button is enabled exactly when a click sends a request; it is always disabled while loading |
| VerifyNewsPage.UrlToSend | src/pages/VerifyNews.tsx:110 | no url is sent for a blank one; otherwise the url is sent trimmed |
| VerifyNewsPage.RequestToSend | src/pages/VerifyNews.tsx:94-112 | nothing is sent for a blank description; otherwise the untrimmed description, the trimmed url or none, and no image |
| VerifyNewsPage.SentRequestsAreAnalysed | src/pages/VerifyNews.tsx:94-112 | every request the page sends passes the server's presence check, and its content reaches the analysis text, which is never the fallback sentence |
| VerifyNewsPage.LinkShown | src/pages/VerifyNews.tsx:391 | only a present, non-empty url is linked, never the placeholder `#`; a url is linked exactly when defaulting it to `#` does not give `#` |
| VerifyNewsPage.LinkShownAfterNormalisation | src/pages/VerifyNews.tsx:391 | after normalisation a source is linked exactly when it came with a truthy url other than `#`; a source without a url is never linked |
| Header.IsActivePage | src/components/layout/Header.tsx:17-21 | an active item's href is a prefix of the path; every item is active on its own path; the root item only on `/` |
| Header.NonRootActiveIffPrefix | src/components/layout/Header.tsx:17-21 | any item other than the root is active exactly on the paths that start with its href |
| Header.RootActiveOnlyAtRoot | src/components/layout/Header.tsx:17-21 | the root item is active on `/` and on no other path |
| Header.PrefixNotSegment | src/components/layout/Header.tsx:17-21 | the test is a plain prefix: `/sobrefoo` and `/sobre/equipe` both highlight `/sobre` |
| Header.AtMostOneActive | src/components/layout/Header.tsx:10-21 | no path highlights two navigation items |
| Header.MobileMenu.constructor | src/components/layout/Header.tsx:8 | the mobile menu starts closed, with the mobile navigation hidden |
| Header.MobileMenu.Toggle | src/components/layout/Header.tsx:67-74 | the menu button flips open and closed, and with it whether the mobile navigation is shown |
| Header.MobileMenu.ItemClicked | src/components/layout/Header.tsx:74-90 | clicking a mobile item closes the menu and hides the mobile navigation |

`VerifyNewsHandler.Handle` states the following:

- **Early exits, in order.** A preflight gets the preflight response. A
  missing key gets a 500 with the configuration message. A store client
  that fails to be created gets a 500 with the caught message. An
  undecodable body gets a 500 with the caught message. Status 400 is returned exactly
  when the presence check fails. None of these makes any external call.
- **The model call.** An accepted request calls the model first, with
  `AnalysisText`, and never calls it again.
- **Model failures.** A non-ok status, an exception, or an empty candidate
  list each give a 500 with its own message, after exactly one call.
- **After a successful model call.** An upload happens exactly when an
  image was sent. Then one insert follows, whose row is fixed by the
  request and `AnalysisOf` the first candidate.
- **Success.** The response is a success exactly when the request was
  accepted, the model returned a candidate and the insert succeeded.
- **What a success carries.** An image url implies that an image was sent
  and uploaded. Every returned source url is truthy. An unparsable reply
  yields the fallback fields.

## Left out

- HTTP serving and the CORS headers are not modelled. The preflight is
  one response value.
- Reading the body as multipart form data or JSON is not modelled. The
  decoded request, or the message of the decoding error, is an input.
- Reading the environment (`Deno.env`) is not modelled. Whether the
  model key is truthy is an input, and so is the outcome of creating the
  store client (which depends on the store URL and service key).
- The prompt wording around the analysis text, the model URL and the
  generation settings are not modelled. The model's answer is an input,
  and so is the absence of `candidates[0].content.parts[0].text`, which
  becomes a thrown error.
- `JSON.parse` is not modelled: it is the `parse` parameter. A JSON text
  that parses to `null` (which makes the code throw a type error) is not
  modelled.
- JSON fields of unexpected types (a number where a string is expected,
  a non-array `sources`) are not modelled. The score is an integer, not a
  floating-point number.
- The uploaded file's name (`verification_<Date.now()>.png`) and the
  public URL lookup are not modelled. The upload outcome is an input.
- The database is not modelled. It is assumed to return the inserted row
  with an id and a timestamp added.
- Strings are sequences of Unicode scalar values, not UTF-16 code units.
- Rendering is not modelled. This covers toasts, `setResult`, and the
  client's handling of the response envelope.
- The three-second timing of the interval is not modelled, nor is its
  clearing on unmount. A tick is one call.
- The impact statistics, their realtime subscription and
  `toLocaleString` are not modelled.
- The About, Contact, Donations and Footer components are not part of
  this model, nor is the mobile-app packaging configuration. They hold no
  logic beyond rendering.
- VerifyNewsPage.BannerCarousel.Select: requires an index in range,
  because the page draws one dot per banner.
- VerifyNewsReply.JsonText: its own contract only bounds the length. The
  regex behaviour is stated by `FenceMatch`, `BraceSpan` and the lemmas
  that follow them.
