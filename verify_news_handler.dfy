/** The `verify-news` request handler: one request in, one response out.
    Everything the handler reads from outside — the request method, the
    environment, the decoded body, the model's answer, `JSON.parse`, the
    blob store and the database — is a parameter; the external calls it
    makes are returned, in order, beside the response. */
module VerifyNewsHandler {
  import opened Js
  import opened VerifyNewsRequest
  import opened VerifyNewsReply

  /** How reading the request body ended. */
  datatype Body = Decoded(request: VerificationRequest) | Undecodable(message: string)

  /** How creating the store client ended. The client library throws when
      the store URL or the service key is missing; the handler catches the
      error and answers 500 with its message. */
  datatype ClientOutcome = ClientCreated | ClientThrew(message: string)

  /** How the call to the model ended: a response whose `ok` is false, with
      its status and error text; a response listing candidate texts; or an
      exception (a network failure, or an envelope without
      `candidates[0].content.parts[0].text`) with its message. */
  datatype ModelOutcome =
    | NotOk(status: nat, errorText: string)
    | Candidates(texts: seq<string>)
    | ModelThrew(message: string)

  /** How the image upload ended; on success, the public URL of the file. */
  datatype UploadOutcome = Uploaded(publicUrl: string) | UploadFailed

  /** How the insert ended; on success, the identifier and timestamp the
      store assigned to the new row. */
  datatype InsertOutcome = Inserted(id: string, createdAt: string) | InsertFailed

  /** The row handed to the store. */
  datatype Row = Row(
    content: Option<string>,
    url: Option<string>,
    classification: Option<string>,
    score: Option<int>,
    explanation: Option<string>,
    sources: seq<Source>,
    criteria: seq<Criterion>,
    imageUrl: Option<string>)

  /** The stored verification as returned to the caller. */
  datatype Record = Record(
    id: string,
    createdAt: string,
    content: Option<string>,
    url: Option<string>,
    classification: Option<string>,
    score: Option<int>,
    explanation: Option<string>,
    sources: seq<Source>,
    criteria: seq<Criterion>,
    imageUrl: Option<string>)

  /** An external call the handler makes. */
  datatype ExternalCall =
    | ModelCall(analysisText: string)
    | ImageUpload(image: ImageFile)
    | RecordInsert(row: Row)

  /** `Preflight` answers an `OPTIONS` request with the CORS headers and no
      body; the other two are the JSON envelopes
      `{ success: false, error }` and `{ success: true, verification }`. */
  datatype Response =
    | Preflight
    | Failure(status: nat, error: string)
    | Success(verification: Record)

  const ConfigurationMessage: string := "Configuração da API não encontrada"
  const MissingInputMessage: string := "Por favor, forneça texto, URL ou imagem para verificar"
  const InvalidReplyMessage: string := "Resposta inválida da API do Google"
  const SaveFailedMessage: string := "Erro ao salvar verificação"
  const InternalErrorMessage: string := "Erro interno do servidor"
  const ModelErrorPrefix: string := "Erro na API do Google: "

  /** `error.message || 'Erro interno do servidor'`. */
  function CaughtMessage(message: string): (r: string)
    ensures message != "" ==> r == message
    ensures message == "" ==> r == InternalErrorMessage
    ensures r != ""
  {
    OrElse(Some(message), InternalErrorMessage)
  }

  /** The message of the error thrown for a response whose `ok` is false. */
  function ModelStatusMessage(status: nat, errorText: string): (r: string)
    ensures StartsWith(r, ModelErrorPrefix)
    ensures var d := DecimalString(status);
      && OccursAt(r, d, |ModelErrorPrefix|)
      && OccursAt(r, " - ", |ModelErrorPrefix| + |d|)
      && r[|ModelErrorPrefix| + |d| + 3..] == errorText
  {
    ModelErrorPrefix + DecimalString(status) + " - " + errorText
  }

  /** The object literal passed to `insert`. */
  function RowOf(req: VerificationRequest, a: Analysis, imageUrl: Option<string>): (r: Row)
    ensures r.content == req.content && r.url == req.url
    ensures r.classification == a.classification && r.score == a.score && r.explanation == a.explanation
    ensures a.sources.Some? ==> r.sources == a.sources.value
    ensures a.sources.None? ==> r.sources == []
    ensures a.criteria.Some? ==> r.criteria == a.criteria.value
    ensures a.criteria.None? ==> r.criteria == []
    ensures r.imageUrl == imageUrl
  {
    Row(req.content, req.url, a.classification, a.score, a.explanation,
        SourcesOrEmpty(a), CriteriaOrEmpty(a), imageUrl)
  }

  /** `{ ...verification, sources: verification.sources.map(...) }`. */
  function Returned(id: string, createdAt: string, row: Row): (r: Record)
    ensures r.id == id && r.createdAt == createdAt
    ensures r.content == row.content && r.url == row.url && r.imageUrl == row.imageUrl
    ensures r.classification == row.classification && r.score == row.score
    ensures r.explanation == row.explanation && r.criteria == row.criteria
    ensures |r.sources| == |row.sources|
    ensures forall k :: 0 <= k < |r.sources| ==>
      && r.sources[k].name == row.sources[k].name
      && r.sources[k].verified == row.sources[k].verified
      && Truthy(r.sources[k].url)
      && (Truthy(row.sources[k].url) ==> r.sources[k].url == row.sources[k].url)
  {
    Record(id, createdAt, row.content, row.url, row.classification, row.score,
           row.explanation, NormaliseSources(row.sources), row.criteria, row.imageUrl)
  }

  /** The request got past every early exit: it is not a preflight, the
      model key is set, the store client was created, the body decoded and
      it carries some input. */
  predicate Accepted(isPreflight: bool, apiKey: Option<string>, client: ClientOutcome, body: Body) {
    !isPreflight && Truthy(apiKey) && client.ClientCreated? && body.Decoded? && HasInput(body.request)
  }

  /** The public URL recorded for the request's image: present only when
      an image was sent and its upload succeeded. */
  function StoredImageUrl(req: VerificationRequest, upload: UploadOutcome): (r: Option<string>)
    ensures r.Some? <==> req.imageFile.Some? && upload.Uploaded?
    ensures r.Some? ==> r.value == upload.publicUrl
  {
    if req.imageFile.Some? && upload.Uploaded? then Some(upload.publicUrl) else None
  }

  /** The upload calls made for a request: one exactly when it has an image. */
  function Uploads(req: VerificationRequest): seq<ExternalCall> {
    if req.imageFile.Some? then [ImageUpload(req.imageFile.value)] else []
  }

  /** What follows a successful model call: parse the reply or fall back,
      upload the image if there is one, insert the row and return the
      stored record with its sources normalised. */
  method AnalyseAndStore(
    req: VerificationRequest,
    reply: string,
    parse: string -> Option<Analysis>,
    upload: UploadOutcome,
    insert: InsertOutcome)
    returns (response: Response, calls: seq<ExternalCall>)
    ensures calls == Uploads(req) + [RecordInsert(RowOf(req, AnalysisOf(reply, parse), StoredImageUrl(req, upload)))]
    ensures forall k :: 0 <= k < |calls| ==> !calls[k].ModelCall?
    ensures response == if insert.Inserted? then
                          Success(Returned(insert.id, insert.createdAt, RowOf(req, AnalysisOf(reply, parse), StoredImageUrl(req, upload))))
                        else Failure(500, SaveFailedMessage)
    ensures response.Success? ==>
      forall k :: 0 <= k < |response.verification.sources| ==> Truthy(response.verification.sources[k].url)
    ensures response.Success? && parse(JsonText(reply)).None? ==>
      var v := response.verification;
      && v.classification == Some("partial")
      && v.score == Some(50)
      && v.explanation == Some(FallbackExplanation)
      && v.criteria == [Criterion("Análise automatizada", false)]
      && v.sources == []
  {
    var analysis: Analysis;
    var parsed := parse(JsonText(reply));
    if parsed.Some? {
      analysis := parsed.value;
    } else {
      analysis := FallbackAnalysis;
    }

    calls := [];
    var imageUrl: Option<string> := None;
    if req.imageFile.Some? {
      calls := calls + [ImageUpload(req.imageFile.value)];
      if upload.Uploaded? {
        imageUrl := Some(upload.publicUrl);
      }
    }

    var row := RowOf(req, analysis, imageUrl);
    calls := calls + [RecordInsert(row)];
    if insert.InsertFailed? {
      response := Failure(500, SaveFailedMessage);
      return;
    }
    response := Success(Returned(insert.id, insert.createdAt, row));
  }

  method Handle(
    isPreflight: bool,
    apiKey: Option<string>,
    client: ClientOutcome,
    body: Body,
    model: ModelOutcome,
    parse: string -> Option<Analysis>,
    upload: UploadOutcome,
    insert: InsertOutcome)
    returns (response: Response, calls: seq<ExternalCall>)
    // The early exits, in their order; none of them calls anything.
    ensures isPreflight ==> response == Preflight && calls == []
    ensures !isPreflight && !Truthy(apiKey) ==>
      response == Failure(500, ConfigurationMessage) && calls == []
    ensures !isPreflight && Truthy(apiKey) && client.ClientThrew? ==>
      response == Failure(500, CaughtMessage(client.message)) && calls == []
    ensures !isPreflight && Truthy(apiKey) && client.ClientCreated? && body.Undecodable? ==>
      response == Failure(500, CaughtMessage(body.message)) && calls == []
    ensures response == Failure(400, MissingInputMessage) <==>
      !isPreflight && Truthy(apiKey) && client.ClientCreated? && body.Decoded? && !HasInput(body.request)
    ensures !Accepted(isPreflight, apiKey, client, body) ==> calls == []
    // An accepted request first calls the model, once, with its analysis text.
    ensures Accepted(isPreflight, apiKey, client, body) ==>
      1 <= |calls| && calls[0] == ModelCall(AnalysisText(body.request))
      && forall k :: 1 <= k < |calls| ==> !calls[k].ModelCall?
    // Failures of the model call.
    ensures Accepted(isPreflight, apiKey, client, body) && model.NotOk? ==>
      response == Failure(500, ModelStatusMessage(model.status, model.errorText)) && |calls| == 1
    ensures Accepted(isPreflight, apiKey, client, body) && model.ModelThrew? ==>
      response == Failure(500, CaughtMessage(model.message)) && |calls| == 1
    ensures Accepted(isPreflight, apiKey, client, body) && model.Candidates? && model.texts == [] ==>
      response == Failure(500, InvalidReplyMessage) && |calls| == 1
    // Past the model call: an upload exactly when an image was sent, then one insert.
    ensures Accepted(isPreflight, apiKey, client, body) && model.Candidates? && model.texts != [] ==>
      var req := body.request;
      var row := RowOf(req, AnalysisOf(model.texts[0], parse), StoredImageUrl(req, upload));
      && calls == [ModelCall(AnalysisText(req))] + Uploads(req) + [RecordInsert(row)]
      && response == if insert.Inserted? then Success(Returned(insert.id, insert.createdAt, row))
                     else Failure(500, SaveFailedMessage)
    ensures response.Success? <==>
      Accepted(isPreflight, apiKey, client, body) && model.Candidates? && model.texts != [] && insert.Inserted?
    // What a successful response carries.
    ensures response.Success? && response.verification.imageUrl.Some? ==>
      body.request.imageFile.Some? && upload.Uploaded?
    ensures response.Success? ==>
      forall k :: 0 <= k < |response.verification.sources| ==> Truthy(response.verification.sources[k].url)
    ensures response.Success? && parse(JsonText(model.texts[0])).None? ==>
      var v := response.verification;
      && v.classification == Some("partial")
      && v.score == Some(50)
      && v.explanation == Some(FallbackExplanation)
      && v.criteria == [Criterion("Análise automatizada", false)]
      && v.sources == []
  {
    calls := [];
    if isPreflight {
      response := Preflight;
      return;
    }
    if !Truthy(apiKey) {
      response := Failure(500, ConfigurationMessage);
      return;
    }
    if client.ClientThrew? {
      response := Failure(500, CaughtMessage(client.message));
      return;
    }
    if body.Undecodable? {
      response := Failure(500, CaughtMessage(body.message));
      return;
    }
    var req := body.request;
    if !HasInput(req) {
      response := Failure(400, MissingInputMessage);
      return;
    }

    var analysisContent := BuildAnalysisContent(req);
    calls := calls + [ModelCall(analysisContent)];
    var analysisText: string;
    match model {
      case NotOk(status, errorText) =>
        response := Failure(500, ModelStatusMessage(status, errorText));
        return;
      case ModelThrew(message) =>
        response := Failure(500, CaughtMessage(message));
        return;
      case Candidates(texts) =>
        if |texts| == 0 {
          response := Failure(500, InvalidReplyMessage);
          return;
        }
        analysisText := texts[0];
    }

    var storeCalls;
    response, storeCalls := AnalyseAndStore(req, analysisText, parse, upload, insert);
    calls := calls + storeCalls;
  }
}
