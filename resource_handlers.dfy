/**
 * The MCP `resources/read` handler: the requested URI is classified as the
 * workflow list, one workflow or one execution, the matching API call's
 * outcome becomes the resource contents, and everything else is an
 * `McpError`.
 */
module ResourceHandlers {
  import opened Wrappers

  datatype ErrorCode = InvalidRequest | InternalError

  /** The code and the message an `McpError` is constructed with. */
  datatype McpError = McpError(code: ErrorCode, message: string)

  /** The API call a URI asks for. */
  datatype ResourceRequest = ListWorkflows | GetWorkflow(id: string) | GetExecution(id: string)

  /**
   * What the API call did: returned a payload (already rendered with
   * `JSON.stringify(…, null, 2)`), or threw an error with the given
   * `message` (possibly empty) and `String(error)` rendering.
   */
  datatype ApiOutcome = Returned(json: string) | Threw(message: string, shown: string)

  datatype Content = Content(uri: string, mimeType: string, text: string)

  const ListUri: string := "n8n://workflows"
  const WorkflowPrefix: string := "n8n://workflows/"
  const ExecutionPrefix: string := "n8n://executions/"
  const JsonMime: string := "application/json"

  /** The characters a regular-expression `.` does not match. */
  predicate IsLineTerminator(c: char) {
    c == '\n' || c == '\r' || c == '\U{2028}' || c == '\U{2029}'
  }

  /** `(.+)$` matches the whole of `s`: one or more `.`, then the end of input. */
  predicate DotsToEnd(s: string)
    decreases |s|
  {
    s != [] && !IsLineTerminator(s[0]) && (s[1..] == [] || DotsToEnd(s[1..]))
  }

  /** A well-formed id: non-empty and on one line. */
  predicate ValidId(id: string) {
    id != [] && forall k :: 0 <= k < |id| ==> !IsLineTerminator(id[k])
  }

  lemma {:induction false} DotsToEndIsValidId(s: string)
    ensures DotsToEnd(s) <==> ValidId(s)
    decreases |s|
  {
    if s != [] && s[1..] != [] {
      DotsToEndIsValidId(s[1..]);
      assert forall k :: 1 <= k < |s| ==> s[k] == s[1..][k - 1];
    }
  }

  /** `uri.match(/^<prefix>(.+)$/)`, answering the captured group. */
  function MatchId(prefix: string, uri: string): (m: Option<string>)
    ensures m.Some? ==> uri == prefix + m.value && ValidId(m.value)
  {
    if |prefix| <= |uri| && uri[..|prefix|] == prefix && DotsToEnd(uri[|prefix|..]) then
      DotsToEndIsValidId(uri[|prefix|..]);
      Some(uri[|prefix|..])
    else None
  }

  /** The pattern captures exactly the well-formed ids after its prefix. */
  lemma MatchIdOfPrefixed(prefix: string, id: string)
    ensures MatchId(prefix, prefix + id) == if ValidId(id) then Some(id) else None
  {
    var uri := prefix + id;
    assert uri[..|prefix|] == prefix && uri[|prefix|..] == id;
    DotsToEndIsValidId(id);
  }

  /** The tests of the read handler, in their order. */
  function Route(uri: string): (r: Result<ResourceRequest, McpError>)
    ensures r.Failure? ==> r.error == McpError(InvalidRequest, "Invalid URI format: " + uri)
  {
    if uri == ListUri then Success(ListWorkflows)
    else
      match MatchId(WorkflowPrefix, uri)
      case Some(id) => Success(GetWorkflow(id))
      case None =>
        match MatchId(ExecutionPrefix, uri)
        case Some(id) => Success(GetExecution(id))
        case None => Failure(McpError(InvalidRequest, "Invalid URI format: " + uri))
  }

  /** The URI that names a request. */
  function UriOf(r: ResourceRequest): string {
    match r
    case ListWorkflows => ListUri
    case GetWorkflow(id) => WorkflowPrefix + id
    case GetExecution(id) => ExecutionPrefix + id
  }

  predicate ValidRequest(r: ResourceRequest) {
    r.ListWorkflows? || ValidId(r.id)
  }

  /** Every well-formed request is reached from its own URI. */
  lemma RouteOfUri(r: ResourceRequest)
    requires ValidRequest(r)
    ensures Route(UriOf(r)) == Success(r)
  {
    match r
    case ListWorkflows =>
    case GetWorkflow(id) =>
      MatchIdOfPrefixed(WorkflowPrefix, id);
      assert UriOf(r) != ListUri by { assert |UriOf(r)| > |ListUri|; }
    case GetExecution(id) =>
      MatchIdOfPrefixed(ExecutionPrefix, id);
      var uri := UriOf(r);
      assert uri != ListUri by { assert uri[6] == 'e' && ListUri[6] == 'w'; }
      assert MatchId(WorkflowPrefix, uri).None? by {
        assert uri[6] == 'e' && WorkflowPrefix[6] == 'w';
      }
  }

  /** A URI is routed only to the request it names, and only to a well-formed one. */
  lemma RouteNamesRequest(uri: string)
    requires Route(uri).Success?
    ensures UriOf(Route(uri).value) == uri && ValidRequest(Route(uri).value)
  {
  }

  /**
   * `n8n://workflows` is the list, even though it also starts the
   * per-workflow pattern; a prefix without an id is invalid.
   */
  lemma ListUriRoutesToList()
    ensures Route("n8n://workflows") == Success(ListWorkflows)
    ensures Route(WorkflowPrefix).Failure?
    ensures Route(ExecutionPrefix).Failure?
  {
    MatchIdOfPrefixed(WorkflowPrefix, "");
    MatchIdOfPrefixed(ExecutionPrefix, "");
    assert WorkflowPrefix == WorkflowPrefix + "" && ExecutionPrefix == ExecutionPrefix + "";
    assert WorkflowPrefix != ListUri && ExecutionPrefix != ListUri;
    assert MatchId(WorkflowPrefix, ExecutionPrefix).None? by { assert ExecutionPrefix[6] == 'e'; }
  }

  /** The id runs to the end of the URI, further slashes included. */
  lemma IdKeepsSlashes()
    ensures Route("n8n://workflows/a/b") == Success(GetWorkflow("a/b"))
  {
    RouteOfUri(GetWorkflow("a/b"));
    assert WorkflowPrefix + "a/b" == "n8n://workflows/a/b";
  }

  lemma ExecutionExample()
    ensures Route("n8n://executions/42") == Success(GetExecution("42"))
  {
    RouteOfUri(GetExecution("42"));
    assert ExecutionPrefix + "42" == "n8n://executions/42";
  }

  /** A line break inside the id makes the URI invalid. */
  lemma LineBreakRejected()
    ensures Route(WorkflowPrefix + "a\nb").Failure?
  {
    var bad := WorkflowPrefix + "a\nb";
    MatchIdOfPrefixed(WorkflowPrefix, "a\nb");
    assert !ValidId("a\nb") by { assert IsLineTerminator("a\nb"[1]); }
    assert bad != ListUri by { assert |bad| != |ListUri|; }
    assert MatchId(ExecutionPrefix, bad).None? by { assert bad[6] == 'w'; }
  }

  /** `error.message || String(error)`. */
  function ErrorText(outcome: ApiOutcome): string
    requires outcome.Threw?
  {
    if outcome.message != "" then outcome.message else outcome.shown
  }

  const WorkflowFailure: string := "Failed to fetch workflow "
  const ExecutionFailure: string := "Failed to fetch execution "

  /** The message of the catch block of each route, before the error text. */
  function FailurePrefix(r: ResourceRequest): string {
    match r
    case ListWorkflows => "Failed to fetch workflows: "
    case GetWorkflow(id) => WorkflowFailure + id + ": "
    case GetExecution(id) => ExecutionFailure + id + ": "
  }

  lemma PiecesOfConcat<T>(a: seq<T>, b: seq<T>, c: seq<T>, d: seq<T>)
    ensures (a + b + c + d)[..|a|] == a && (a + b + c + d)[|a|..|a| + |b|] == b
  {
    assert forall k :: 0 <= k < |b| ==> (a + b + c + d)[|a| + k] == b[k];
  }

  /**
   * The read handler for `uri`, where `outcome` is what the API call of
   * the routed request did (it is not consulted when the URI is invalid).
   */
  function ReadResource(uri: string, outcome: ApiOutcome): (r: Result<Content, McpError>)
    ensures r.Success? ==> r.value.uri == uri && r.value.mimeType == JsonMime
  {
    match Route(uri)
    case Failure(e) => Failure(e)
    case Success(request) =>
      match outcome
      case Returned(json) => Success(Content(uri, JsonMime, json))
      case Threw(_, _) => Failure(McpError(InternalError, FailurePrefix(request) + ErrorText(outcome)))
  }

  /** An invalid URI is an `InvalidRequest` whatever the API would do. */
  lemma ReadInvalidUri(uri: string, outcome: ApiOutcome, other: ApiOutcome)
    requires Route(uri).Failure?
    ensures ReadResource(uri, outcome) == Failure(McpError(InvalidRequest, "Invalid URI format: " + uri))
    ensures ReadResource(uri, outcome) == ReadResource(uri, other)
  {
  }

  /** A payload of a routed request is served as JSON under the requested URI. */
  lemma ReadReturned(r: ResourceRequest, json: string)
    requires ValidRequest(r)
    ensures ReadResource(UriOf(r), Returned(json)) == Success(Content(UriOf(r), JsonMime, json))
  {
    RouteOfUri(r);
  }

  /**
   * A failing API call of a routed request is an `InternalError` whose
   * message names the id right after the route's fixed wording.
   */
  lemma ReadFailureNamesId(r: ResourceRequest, outcome: ApiOutcome)
    requires ValidRequest(r) && outcome.Threw?
    ensures ReadResource(UriOf(r), outcome) == Failure(McpError(InternalError, FailurePrefix(r) + ErrorText(outcome)))
    ensures r.GetWorkflow? ==>
              var m := FailurePrefix(r) + ErrorText(outcome);
              m[..|WorkflowFailure|] == WorkflowFailure
              && m[|WorkflowFailure|..|WorkflowFailure| + |r.id|] == r.id
    ensures r.GetExecution? ==>
              var m := FailurePrefix(r) + ErrorText(outcome);
              m[..|ExecutionFailure|] == ExecutionFailure
              && m[|ExecutionFailure|..|ExecutionFailure| + |r.id|] == r.id
  {
    RouteOfUri(r);
    if r.GetWorkflow? {
      PiecesOfConcat(WorkflowFailure, r.id, ": ", ErrorText(outcome));
    } else if r.GetExecution? {
      PiecesOfConcat(ExecutionFailure, r.id, ": ", ErrorText(outcome));
    }
  }

  /** The message of a thrown error is used when non-empty, its rendering otherwise. */
  lemma ErrorTextFallback(message: string, shown: string)
    ensures message != "" ==> ErrorText(Threw(message, shown)) == message
    ensures message == "" ==> ErrorText(Threw(message, shown)) == shown
  {
  }
}
