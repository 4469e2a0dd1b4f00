/**
 The request handler: one call of HandleRequest resolves the requested
 file, writes the request's audit messages to the log, and then labels the
 response, marks it gzip-encoded, streams the file into it and closes it.
 The socket, the gzip stream and the body decoding are outside the model:
 the request arrives as decoded strings, and streaming is recorded as the
 path of the file whose compressed bytes form the body.
 */
module RequestHandler {
  import opened Wrappers
  import opened Paths
  import opened ContentType
  import opened Resolution
  import opened AuditLog
  import opened Observation

  const StatusOk: int := 200
  const StatusNotFound: int := 404

  /** The parts of HttpListenerRequest that HandleRequest reads. */
  datatype Request = Request(
    httpMethod: string,     // Request.HttpMethod, compared case-sensitively
    absolutePath: string,   // Request.Url.AbsolutePath
    query: string,          // Request.Url.Query, empty when there is none
    url: string,            // Request.Url as text
    remoteEndPoint: string, // Request.RemoteEndPoint as text
    body: string)           // the body read to its end, as decoded text

  // The audit messages of a request

  function PostMessage(req: Request): string {
    "POST data: " + req.body
  }

  function QueryMessage(req: Request): string {
    "Query data: " + req.query
  }

  function SummaryMessage(req: Request): string {
    "Request from " + req.remoteEndPoint + " for " + req.url
  }

  /**
   The messages HandleRequest logs, in order: the body of a POST, the query
   of a GET that has one, and always the summary line, last.
   */
  function AuditMessages(req: Request): (messages: seq<string>)
    ensures 1 <= |messages| <= 2 && messages[|messages| - 1] == SummaryMessage(req)
  {
    (if req.httpMethod == "POST" then [PostMessage(req)] else [])
    + (if req.httpMethod == "GET" && req.query != "" then [QueryMessage(req)] else [])
    + [SummaryMessage(req)]
  }

  /**
   Which messages a request produces. The body line, carrying the body,
   appears exactly for POST; the query line, carrying the query, exactly
   for a GET with a non-empty query; a line of either kind carries nothing
   else; and the summary line is the last message and the only one of its
   kind.
   */
  lemma MessageKinds(req: Request)
    ensures PostMessage(req) in AuditMessages(req) <==> req.httpMethod == "POST"
    ensures QueryMessage(req) in AuditMessages(req) <==> req.httpMethod == "GET" && req.query != ""
    ensures var messages := AuditMessages(req);
            forall i :: 0 <= i < |messages| && "POST data: " <= messages[i] ==>
              messages[i] == PostMessage(req)
    ensures var messages := AuditMessages(req);
            forall i :: 0 <= i < |messages| && "Query data: " <= messages[i] ==>
              messages[i] == QueryMessage(req)
    ensures var messages := AuditMessages(req);
            forall i :: 0 <= i < |messages| ==>
              ("Request from " <= messages[i] <==> i == |messages| - 1)
    ensures |AuditMessages(req)| == 2
            <==> req.httpMethod == "POST" || (req.httpMethod == "GET" && req.query != "")
  {
    var messages := AuditMessages(req);
    var last := |messages| - 1;
    assert "Request from " <= messages[last];
    assert !("POST data: " <= messages[last]) by { assert messages[last][0] == 'R'; }
    assert !("Query data: " <= messages[last]) by { assert messages[last][0] == 'R'; }
    assert PostMessage(req) != messages[last] by { assert PostMessage(req)[0] == 'P'; }
    assert QueryMessage(req) != messages[last] by { assert QueryMessage(req)[0] == 'Q'; }
    if req.httpMethod == "POST" {
      assert messages == [PostMessage(req), SummaryMessage(req)];
      assert !("Query data: " <= messages[0]) by { assert messages[0][0] == 'P'; }
      assert !("Request from " <= messages[0]) by { assert messages[0][0] == 'P'; }
      assert QueryMessage(req) != messages[0] by { assert QueryMessage(req)[0] == 'Q'; }
    } else if req.httpMethod == "GET" && req.query != "" {
      assert messages == [QueryMessage(req), SummaryMessage(req)];
      assert !("POST data: " <= messages[0]) by { assert messages[0][0] == 'Q'; }
      assert !("Request from " <= messages[0]) by { assert messages[0][0] == 'Q'; }
      assert PostMessage(req) != messages[0] by { assert PostMessage(req)[0] == 'P'; }
    } else {
      assert messages == [SummaryMessage(req)];
    }
  }

  // The observable steps of one request, in the order they happen

  /** The steps that write to the response after the logging is done. */
  predicate IsResponseWrite(e: Effect) {
    e.SetContentType? || e.AddHeader? || e.StreamCompressed? || e.CloseResponse?
  }

  function LogSteps(messages: seq<string>): (steps: seq<Effect>)
    ensures |steps| == |messages|
    ensures forall i :: 0 <= i < |steps| ==> steps[i] == Log(messages[i])
  {
    seq(|messages|, i requires 0 <= i < |messages| => Log(messages[i]))
  }

  lemma LogStepsSnoc(messages: seq<string>, message: string)
    ensures LogSteps(messages + [message]) == LogSteps(messages) + [Log(message)]
  {
    var l := LogSteps(messages + [message]);
    assert l[|messages|] == Log(message);
    forall i | 0 <= i < |messages| ensures l[i] == LogSteps(messages)[i] {
      assert (messages + [message])[i] == messages[i];
    }
  }

  /**
   Opening the resolved file either succeeds (content type, gzip header,
   compressed body, close) or throws, which ends the request there.
   */
  function ServeSteps(filePath: string, existing: set<string>): seq<Effect> {
    if filePath in existing then
      [ SetContentType(GetContentType(filePath)), AddHeader("Content-Encoding", "gzip"),
        StreamCompressed(filePath), CloseResponse ]
    else [OpenFailed(filePath)]
  }

  /** The steps that set the status: none, or 404 when the file is missing. */
  function StatusSteps(found: bool): (steps: seq<Effect>)
    ensures forall i :: 0 <= i < |steps| ==> steps[i] == SetStatusCode(StatusNotFound)
    ensures |steps| == (if found then 0 else 1)
  {
    if found then [] else [SetStatusCode(StatusNotFound)]
  }

  /** A history logging nothing more is the history itself. */
  lemma NothingLogged(history: seq<Effect>)
    ensures history + LogSteps([]) == history
  {
  }

  /** A history that has logged `logged`, extended by one more Log step. */
  lemma HistoryLogsOneMore(start: seq<Effect>, history: seq<Effect>, logged: seq<string>,
                           message: string)
    requires history == start + LogSteps(logged)
    ensures history + [Log(message)] == start + LogSteps(logged + [message])
  {
    LogStepsSnoc(logged, message);
    ExtendTwice(start, LogSteps(logged), [Log(message)]);
  }

  /** A history extended by the three phases in turn has gained the trace. */
  lemma PhasesMakeTrace(h0: seq<Effect>, h1: seq<Effect>, h2: seq<Effect>, h3: seq<Effect>,
                        res: Resolved, messages: seq<string>, existing: set<string>)
    requires h1 == h0 + StatusSteps(res.found)
    requires h2 == h1 + LogSteps(messages)
    requires h3 == h2 + ServeSteps(res.filePath, existing)
    ensures h3 == h0 + Trace(res, messages, existing)
  {
    ExtendTwice(h0, StatusSteps(res.found), LogSteps(messages));
    ExtendTwice(h0, StatusSteps(res.found) + LogSteps(messages), ServeSteps(res.filePath, existing));
  }

  /** Four steps observed one at a time are the four steps together. */
  lemma StepByStep(s0: seq<Effect>, s1: seq<Effect>, s2: seq<Effect>, s3: seq<Effect>,
                   s4: seq<Effect>, four: seq<Effect>)
    requires |four| == 4
    requires s1 == s0 + [four[0]] && s2 == s1 + [four[1]] && s3 == s2 + [four[2]]
    requires s4 == s3 + [four[3]]
    ensures s4 == s0 + four
  {
  }

  /** Extending a history step by step is extending it by the steps together. */
  lemma ExtendTwice(history: seq<Effect>, a: seq<Effect>, b: seq<Effect>)
    ensures history + a + b == history + (a + b)
  {
  }

  /**
   The three phases of a request: the status, one Log per message, and the
   serving of the resolved file.
   */
  function Trace(res: Resolved, messages: seq<string>, existing: set<string>): seq<Effect> {
    StatusSteps(res.found) + LogSteps(messages) + ServeSteps(res.filePath, existing)
  }

  /** The phases of HandleRequest, observed one after the other, are its steps. */
  lemma PhasesMakeSteps(h0: seq<Effect>, h1: seq<Effect>, h2: seq<Effect>, h3: seq<Effect>,
                        root: string, existing: set<string>, req: Request)
    requires var res := Resolve(root, existing, req.absolutePath);
             && h1 == h0 + StatusSteps(res.found)
             && h2 == h1 + LogSteps(AuditMessages(req))
             && h3 == h2 + ServeSteps(res.filePath, existing)
    ensures h3 == h0 + Steps(root, existing, req)
  {
    PhasesMakeTrace(h0, h1, h2, h3, Resolve(root, existing, req.absolutePath), AuditMessages(req),
                    existing);
  }

  /** Everything HandleRequest does for `req`, in order. */
  function Steps(root: string, existing: set<string>, req: Request): seq<Effect> {
    Trace(Resolve(root, existing, req.absolutePath), AuditMessages(req), existing)
  }

  /**
   A request takes a 404 step when the file is missing, one Log step per
   audit message, and four serving steps ending in the close, or the one
   failed open when not even the not-found page exists.
   */
  lemma StepsShape(root: string, existing: set<string>, req: Request)
    ensures var res := Resolve(root, existing, req.absolutePath);
            var steps := Steps(root, existing, req);
            && |steps| == (if res.found then 0 else 1) + |AuditMessages(req)|
                          + (if res.filePath in existing then 4 else 1)
            && steps[|steps| - 1]
               == if res.filePath in existing then CloseResponse else OpenFailed(res.filePath)
  {
  }

  /** The messages of the Log steps, in order. */
  function LoggedMessages(steps: seq<Effect>): seq<string> {
    if steps == [] then []
    else (if steps[0].Log? then [steps[0].message] else []) + LoggedMessages(steps[1..])
  }

  lemma {:induction false} LoggedMessagesAppend(a: seq<Effect>, b: seq<Effect>)
    ensures LoggedMessages(a + b) == LoggedMessages(a) + LoggedMessages(b)
    decreases |a|
  {
    if a != [] {
      var ab := a + b;
      var head := if a[0].Log? then [a[0].message] else [];
      assert ab[0] == a[0];
      assert ab[1..] == a[1..] + b;
      assert LoggedMessages(a) == head + LoggedMessages(a[1..]);
      assert LoggedMessages(ab) == head + LoggedMessages(a[1..] + b);
      LoggedMessagesAppend(a[1..], b);
    } else {
      assert a + b == b;
    }
  }

  lemma {:induction false} LoggedMessagesOfLogSteps(messages: seq<string>)
    ensures LoggedMessages(LogSteps(messages)) == messages
    decreases |messages|
  {
    if messages != [] {
      assert LogSteps(messages)[1..] == LogSteps(messages[1..]);
      LoggedMessagesOfLogSteps(messages[1..]);
    }
  }

  lemma {:induction false} LoggedMessagesOfNoLogs(steps: seq<Effect>)
    requires forall i :: 0 <= i < |steps| ==> !steps[i].Log?
    ensures LoggedMessages(steps) == []
    decreases |steps|
  {
    if steps != [] {
      LoggedMessagesOfNoLogs(steps[1..]);
    }
  }

  /** Serving the file neither logs nor sets the status. */
  lemma ServeStepsKinds(filePath: string, existing: set<string>)
    ensures var serve := ServeSteps(filePath, existing);
            forall i :: 0 <= i < |serve| ==> !serve[i].Log? && !serve[i].SetStatusCode?
  {
  }

  /**
   A trace made of a status phase, a logging phase and a serving phase:
   status steps stay at the front, and every Log precedes every write to
   the response.
   */
  lemma PhaseOrder(status: seq<Effect>, messages: seq<string>, serve: seq<Effect>)
    requires forall i :: 0 <= i < |status| ==> status[i].SetStatusCode?
    requires forall i :: 0 <= i < |serve| ==> !serve[i].Log? && !serve[i].SetStatusCode?
    ensures var steps := status + LogSteps(messages) + serve;
            forall i :: 0 <= i < |steps| && steps[i].SetStatusCode? ==>
              i < |status| && steps[i] == status[i]
    ensures var steps := status + LogSteps(messages) + serve;
            forall i, j ::
              (0 <= i < |steps| && 0 <= j < |steps| && steps[i].Log? && IsResponseWrite(steps[j]))
              ==> i < j
    ensures forall e :: e in status + LogSteps(messages) + serve && IsResponseWrite(e) ==> e in serve
  {
    var logs := LogSteps(messages);
    var steps := status + logs + serve;
    forall i | 0 <= i < |steps|
      ensures i < |status| ==> steps[i] == status[i]
      ensures |status| <= i < |status| + |logs| ==> steps[i] == logs[i - |status|]
      ensures |status| + |logs| <= i ==> steps[i] == serve[i - |status| - |logs|]
    {
    }
  }

  /** A trace logs exactly its messages, in their order. */
  lemma TraceLogsMessages(res: Resolved, messages: seq<string>, existing: set<string>)
    ensures LoggedMessages(Trace(res, messages, existing)) == messages
  {
    var status := StatusSteps(res.found);
    var logs := LogSteps(messages);
    var serve := ServeSteps(res.filePath, existing);
    LoggedMessagesOfNoLogs(status);
    ServeStepsKinds(res.filePath, existing);
    LoggedMessagesOfNoLogs(serve);
    LoggedMessagesAppend(status + logs, serve);
    LoggedMessagesAppend(status, logs);
    LoggedMessagesOfLogSteps(messages);
  }

  /** The log receives exactly the request's audit messages, in their order. */
  lemma StepsLogAuditMessages(root: string, existing: set<string>, req: Request)
    ensures LoggedMessages(Steps(root, existing, req)) == AuditMessages(req)
  {
    TraceLogsMessages(Resolve(root, existing, req.absolutePath), AuditMessages(req), existing);
  }

  /** The order of the steps of a trace. */
  lemma TraceOrder(res: Resolved, messages: seq<string>, existing: set<string>)
    ensures var steps := Trace(res, messages, existing);
            forall i :: 0 <= i < |steps| && steps[i].SetStatusCode? ==>
              i == 0 && steps[i].code == StatusNotFound
    ensures var steps := Trace(res, messages, existing);
            (exists i :: 0 <= i < |steps| && steps[i].SetStatusCode?) <==> !res.found
    ensures var steps := Trace(res, messages, existing);
            forall i, j ::
              (0 <= i < |steps| && 0 <= j < |steps| && steps[i].Log? && IsResponseWrite(steps[j]))
              ==> i < j
  {
    var status := StatusSteps(res.found);
    var serve := ServeSteps(res.filePath, existing);
    var steps := Trace(res, messages, existing);
    ServeStepsKinds(res.filePath, existing);
    PhaseOrder(status, messages, serve);
    if !res.found {
      assert steps[0] == status[0];
    }
  }

  /**
   The order of the steps: a status code is only ever set to 404, only when
   the requested file is missing, and only as the first step; every Log
   step comes before every write to the response.
   */
  lemma StepsOrder(root: string, existing: set<string>, req: Request)
    ensures var steps := Steps(root, existing, req);
            forall i :: 0 <= i < |steps| && steps[i].SetStatusCode? ==>
              i == 0 && steps[i].code == StatusNotFound
    ensures var steps := Steps(root, existing, req);
            (exists i :: 0 <= i < |steps| && steps[i].SetStatusCode?)
            <==> !Resolve(root, existing, req.absolutePath).found
    ensures var steps := Steps(root, existing, req);
            forall i, j ::
              (0 <= i < |steps| && 0 <= j < |steps| && steps[i].Log? && IsResponseWrite(steps[j]))
              ==> i < j
  {
    TraceOrder(Resolve(root, existing, req.absolutePath), AuditMessages(req), existing);
  }

  /**
   Whatever the status and the messages, the content type, the gzip header
   and the close are written exactly when the file can be opened.
   */
  lemma ServedWrites(res: Resolved, messages: seq<string>, existing: set<string>)
    ensures var steps := Trace(res, messages, existing);
            && (SetContentType(GetContentType(res.filePath)) in steps <==> res.filePath in existing)
            && (AddHeader("Content-Encoding", "gzip") in steps <==> res.filePath in existing)
            && (StreamCompressed(res.filePath) in steps <==> res.filePath in existing)
            && (CloseResponse in steps <==> res.filePath in existing)
  {
    var status := StatusSteps(res.found);
    var serve := ServeSteps(res.filePath, existing);
    ServeStepsKinds(res.filePath, existing);
    PhaseOrder(status, messages, serve);
    var ct := SetContentType(GetContentType(res.filePath));
    var gzip := AddHeader("Content-Encoding", "gzip");
    var stream := StreamCompressed(res.filePath);
    assert IsResponseWrite(ct) && IsResponseWrite(gzip) && IsResponseWrite(stream);
    assert IsResponseWrite(CloseResponse);
    if res.filePath in existing {
      assert ct == serve[0] && gzip == serve[1] && stream == serve[2] && CloseResponse == serve[3];
    } else {
      assert serve == [OpenFailed(res.filePath)];
    }
  }

  /**
   The response is labelled with the type of the path actually served, and
   gzip is announced exactly when that file is streamed: the label, the
   header, the compressed body and the close all happen exactly when the
   resolved file can be opened, whatever the request.
   */
  lemma ContentTypeOfServedPath(root: string, existing: set<string>, req: Request)
    ensures var served := Resolve(root, existing, req.absolutePath).filePath;
            SetContentType(GetContentType(served)) in Steps(root, existing, req)
            <==> served in existing
    ensures var served := Resolve(root, existing, req.absolutePath).filePath;
            AddHeader("Content-Encoding", "gzip") in Steps(root, existing, req)
            <==> served in existing
    ensures var served := Resolve(root, existing, req.absolutePath).filePath;
            StreamCompressed(served) in Steps(root, existing, req) <==> served in existing
    ensures var served := Resolve(root, existing, req.absolutePath).filePath;
            CloseResponse in Steps(root, existing, req) <==> served in existing
  {
    ServedWrites(Resolve(root, existing, req.absolutePath), AuditMessages(req), existing);
  }

  /** The not-found page and the index page are both HTML, wherever the root is. */
  lemma PagesAreHtml(prefix: string)
    ensures GetContentType(prefix + NotFoundFile) == "text/html"
    ensures GetContentType(prefix + IndexFile) == "text/html"
  {
    assert prefix + NotFoundFile == (prefix + "error_404") + ".html";
    ContentTypeOfKnownExtension(prefix + "error_404", ".html");
    assert prefix + IndexFile == (prefix + "index") + ".html";
    ContentTypeOfKnownExtension(prefix + "index", ".html");
  }

  /** The not-found page is served as text/html. */
  lemma NotFoundPageIsHtml(root: string, existing: set<string>, req: Request)
    requires !Resolve(root, existing, req.absolutePath).found
    requires JoinPrefix(root) + NotFoundFile in existing
    ensures SetContentType("text/html") in Steps(root, existing, req)
  {
    var res := Resolve(root, existing, req.absolutePath);
    assert res.filePath == JoinPrefix(root) + NotFoundFile;
    PagesAreHtml(JoinPrefix(root));
    ServedWrites(res, AuditMessages(req), existing);
  }

  /** The trace of a found file requested with a single message. */
  lemma FoundTrace(filePath: string, message: string, existing: set<string>)
    requires filePath in existing
    ensures Trace(Resolved(filePath, true), [message], existing)
            == [ Log(message), SetContentType(GetContentType(filePath)),
                 AddHeader("Content-Encoding", "gzip"), StreamCompressed(filePath), CloseResponse ]
  {
    assert LogSteps([message]) == [Log(message)];
  }

  /** GET / on a root holding index.html: status left at 200, served as HTML. */
  lemma GetRootServesIndex(root: string, existing: set<string>, remote: string, url: string)
    requires JoinPrefix(root) + IndexFile in existing
    ensures var req := Request("GET", "/", "", url, remote, "");
            Steps(root, existing, req)
            == [ Log(SummaryMessage(req)), SetContentType("text/html"),
                 AddHeader("Content-Encoding", "gzip"),
                 StreamCompressed(JoinPrefix(root) + IndexFile), CloseResponse ]
  {
    var req := Request("GET", "/", "", url, remote, "");
    var served := JoinPrefix(root) + IndexFile;
    assert RequestedFile("/") == IndexFile;
    assert AuditMessages(req) == [SummaryMessage(req)];
    FoundTrace(served, SummaryMessage(req), existing);
    PagesAreHtml(JoinPrefix(root));
  }

  // The response headers

  /** The header collection compares names without regard to case. */
  predicate SameHeaderName(a: string, b: string) {
    ToLowerInvariant(a) == ToLowerInvariant(b)
  }

  /** The value a header collection holds for `name`, if any: Headers[name]. */
  function HeaderValue(headers: seq<(string, string)>, name: string): Option<string> {
    if headers == [] then None
    else if SameHeaderName(headers[0].0, name) then Some(headers[0].1)
    else HeaderValue(headers[1..], name)
  }

  /** The headers without any entry named `name`, the others kept in order. */
  function WithoutHeader(headers: seq<(string, string)>, name: string): (r: seq<(string, string)>)
    ensures forall i :: 0 <= i < |r| ==> !SameHeaderName(r[i].0, name)
    ensures forall h :: h in r <==> h in headers && !SameHeaderName(h.0, name)
  {
    if headers == [] then []
    else if SameHeaderName(headers[0].0, name) then WithoutHeader(headers[1..], name)
    else [headers[0]] + WithoutHeader(headers[1..], name)
  }

  /**
   Response.AddHeader(name, value), which is Headers.Set: any entry of that
   name is replaced, so afterwards the collection holds exactly one entry
   of that name, with the new value, and every other entry as before.
   */
  function SetHeader(headers: seq<(string, string)>, name: string, value: string)
    : (r: seq<(string, string)>)
    ensures (name, value) in r
    ensures forall i, j :: 0 <= i < j < |r| && SameHeaderName(r[i].0, name) ==> !SameHeaderName(r[j].0, name)
    ensures forall h :: h in r && h != (name, value) <==> h in headers && !SameHeaderName(h.0, name)
  {
    WithoutHeader(headers, name) + [(name, value)]
  }

  lemma {:induction false} HeaderValueAppend(a: seq<(string, string)>, b: seq<(string, string)>,
                                             name: string)
    ensures HeaderValue(a + b, name)
            == if HeaderValue(a, name).Some? then HeaderValue(a, name) else HeaderValue(b, name)
    decreases |a|
  {
    if a == [] {
      assert a + b == b;
    } else {
      assert (a + b)[0] == a[0];
      assert (a + b)[1..] == a[1..] + b;
      HeaderValueAppend(a[1..], b, name);
    }
  }

  lemma {:induction false} HeaderValueWithout(headers: seq<(string, string)>, name: string, other: string)
    ensures HeaderValue(WithoutHeader(headers, name), other)
            == if SameHeaderName(name, other) then None else HeaderValue(headers, other)
    decreases |headers|
  {
    if headers != [] {
      HeaderValueWithout(headers[1..], name, other);
      if !SameHeaderName(headers[0].0, name) {
        var rest := WithoutHeader(headers[1..], name);
        assert ([headers[0]] + rest)[0] == headers[0];
        assert ([headers[0]] + rest)[1..] == rest;
      }
    }
  }

  /**
   Reading a header back after AddHeader: the name just set (in any case)
   gives the new value, and every other name gives what it gave before.
   */
  lemma SetHeaderLookup(headers: seq<(string, string)>, name: string, value: string, other: string)
    ensures HeaderValue(SetHeader(headers, name, value), other)
            == if SameHeaderName(name, other) then Some(value) else HeaderValue(headers, other)
  {
    HeaderValueAppend(WithoutHeader(headers, name), [(name, value)], other);
    HeaderValueWithout(headers, name, other);
    assert [(name, value)][1..] == [];
  }

  // The response and the server

  /** The fields of a response, as one value. */
  datatype ResponseState = ResponseState(
    statusCode: int,
    contentType: Option<string>,
    headers: seq<(string, string)>,
    body: Option<string>,
    closed: bool)

  /** A response as HttpListener hands it over: status 200, nothing written. */
  const InitialResponse: ResponseState := ResponseState(StatusOk, None, [], None, false)

  /** What one step does to the response; logging and a failed open leave it alone. */
  function ApplyEffect(r: ResponseState, e: Effect): ResponseState {
    match e
    case SetStatusCode(code) => r.(statusCode := code)
    case SetContentType(contentType) => r.(contentType := Some(contentType))
    case AddHeader(name, value) => r.(headers := SetHeader(r.headers, name, value))
    case StreamCompressed(filePath) => r.(body := Some(filePath))
    case CloseResponse => r.(closed := true)
    case Log(_) => r
    case OpenFailed(_) => r
  }

  /** The response that a run of steps leaves, starting from a fresh one. */
  function Replay(steps: seq<Effect>): ResponseState
    decreases |steps|
  {
    if steps == [] then InitialResponse
    else ApplyEffect(Replay(steps[..|steps| - 1]), steps[|steps| - 1])
  }

  /** A replayed response is closed exactly when a close was observed. */
  lemma {:induction false} ReplayClosed(steps: seq<Effect>)
    ensures Replay(steps).closed <==> CloseResponse in steps
    decreases |steps|
  {
    if steps != [] {
      var init := steps[..|steps| - 1];
      ReplayClosed(init);
      assert steps == init + [steps[|steps| - 1]];
    }
  }

  /** A replayed status other than 200 is one that was observed being set. */
  lemma {:induction false} ReplayStatus(steps: seq<Effect>)
    ensures Replay(steps).statusCode != StatusOk ==> SetStatusCode(Replay(steps).statusCode) in steps
    decreases |steps|
  {
    if steps != [] {
      var init := steps[..|steps| - 1];
      ReplayStatus(init);
      assert steps == init + [steps[|steps| - 1]];
    }
  }

  /** One more observed step applies that step to the replayed response. */
  lemma ObserveOne(steps: seq<Effect>, start: nat, e: Effect)
    requires start <= |steps|
    ensures Replay((steps + [e])[start..]) == ApplyEffect(Replay(steps[start..]), e)
  {
    var later := (steps + [e])[start..];
    assert later[..|later| - 1] == steps[start..];
  }

  /** Log steps observed after the response was created leave its replay as it was. */
  lemma {:induction false} ObserveLogs(steps: seq<Effect>, start: nat, messages: seq<string>)
    requires start <= |steps|
    ensures Replay((steps + LogSteps(messages))[start..]) == Replay(steps[start..])
    decreases |messages|
  {
    if messages == [] {
      assert steps + LogSteps(messages) == steps;
    } else {
      var init := messages[..|messages| - 1];
      var last := messages[|messages| - 1];
      assert init + [last] == messages;
      LogStepsSnoc(init, last);
      ObserveLogs(steps, start, init);
      assert steps + LogSteps(messages) == (steps + LogSteps(init)) + [Log(last)];
      ObserveOne(steps + LogSteps(init), start, Log(last));
    }
  }

  /**
   The response state HandleRequest writes. Every write is also a step for
   the response's observer, recorded by the write itself, and Valid ties
   the fields to those steps: they are what the steps observed since the
   response was created leave. A field assigned without its step breaks
   Valid.
   */
  class Response {
    var statusCode: int
    var contentType: Option<string>
    var headers: seq<(string, string)>
    var body: Option<string>  // the file whose gzip-compressed bytes were written
    var closed: bool
    const observer: Observer
    ghost const start: nat  // the number of steps observed before this response existed

    function State(): ResponseState
      reads this
    {
      ResponseState(statusCode, contentType, headers, body, closed)
    }

    ghost predicate Valid()
      reads this, observer
    {
      start <= |observer.steps| && State() == Replay(observer.steps[start..])
    }

    constructor (observer: Observer)
      ensures statusCode == StatusOk && contentType == None && headers == []
      ensures body == None && !closed && this.observer == observer
      ensures Valid()
    {
      statusCode := StatusOk;
      contentType := None;
      headers := [];
      body := None;
      closed := false;
      this.observer := observer;
      start := |observer.steps|;
      assert observer.steps[|observer.steps|..] == [];
    }

    /** Response.StatusCode = code. */
    method SetStatusCode(code: int)
      requires Valid()
      modifies this, observer
      ensures statusCode == code
      ensures contentType == old(contentType) && headers == old(headers)
      ensures body == old(body) && closed == old(closed)
      ensures observer.steps == old(observer.steps) + [Effect.SetStatusCode(code)]
      ensures Valid()
    {
      ObserveOne(observer.steps, start, Effect.SetStatusCode(code));
      statusCode := code;
      observer.steps := observer.steps + [Effect.SetStatusCode(code)];
    }

    /** Response.ContentType = value. */
    method SetContentType(value: string)
      requires Valid()
      modifies this, observer
      ensures contentType == Some(value)
      ensures statusCode == old(statusCode) && headers == old(headers)
      ensures body == old(body) && closed == old(closed)
      ensures observer.steps == old(observer.steps) + [Effect.SetContentType(value)]
      ensures Valid()
    {
      ObserveOne(observer.steps, start, Effect.SetContentType(value));
      contentType := Some(value);
      observer.steps := observer.steps + [Effect.SetContentType(value)];
    }

    /** Response.AddHeader(name, value): sets the header, replacing one of that name. */
    method AddHeader(name: string, value: string)
      requires Valid()
      modifies this, observer
      ensures headers == SetHeader(old(headers), name, value)
      ensures statusCode == old(statusCode) && contentType == old(contentType)
      ensures body == old(body) && closed == old(closed)
      ensures observer.steps == old(observer.steps) + [Effect.AddHeader(name, value)]
      ensures Valid()
    {
      ObserveOne(observer.steps, start, Effect.AddHeader(name, value));
      headers := SetHeader(headers, name, value);
      observer.steps := observer.steps + [Effect.AddHeader(name, value)];
    }

    /** Copying the file through a GZipStream into Response.OutputStream. */
    method StreamCompressed(filePath: string)
      requires Valid()
      modifies this, observer
      ensures body == Some(filePath)
      ensures statusCode == old(statusCode) && contentType == old(contentType)
      ensures headers == old(headers) && closed == old(closed)
      ensures observer.steps == old(observer.steps) + [Effect.StreamCompressed(filePath)]
      ensures Valid()
    {
      ObserveOne(observer.steps, start, Effect.StreamCompressed(filePath));
      body := Some(filePath);
      observer.steps := observer.steps + [Effect.StreamCompressed(filePath)];
    }

    /** Response.Close(). */
    method Close()
      requires Valid()
      modifies this, observer
      ensures closed
      ensures statusCode == old(statusCode) && contentType == old(contentType)
      ensures headers == old(headers) && body == old(body)
      ensures observer.steps == old(observer.steps) + [CloseResponse]
      ensures Valid()
    {
      ObserveOne(observer.steps, start, CloseResponse);
      closed := true;
      observer.steps := observer.steps + [CloseResponse];
    }
  }

  /**
   The server: its root directory, the files under it, and the shared log.
   The steps of a request are recorded by the objects that make them: the
   response for its writes, the log store for its records. Both report to
   the same observer.
   */
  class SimpleWebServer {
    const rootDirectory: string
    const existingFiles: set<string>
    const log: LogStore

    constructor (rootDirectory: string, existingFiles: set<string>, log: LogStore)
      ensures this.rootDirectory == rootDirectory && this.existingFiles == existingFiles
      ensures this.log == log
    {
      this.rootDirectory := rootDirectory;
      this.existingFiles := existingFiles;
      this.log := log;
    }

    /**
     The resolution part of HandleRequest: the URL path without its leading
     slashes (index.html when nothing is left) joined onto the root, or the
     not-found page, with status 404, when no file exists there.
     */
    method ResolveFile(req: Request, response: Response) returns (filePath: string)
      requires response.Valid()
      modifies response, response.observer
      ensures response.Valid()
      ensures filePath == Resolve(rootDirectory, existingFiles, req.absolutePath).filePath
      ensures response.observer.steps
              == old(response.observer.steps)
                 + StatusSteps(Resolve(rootDirectory, existingFiles, req.absolutePath).found)
      ensures response.statusCode
              == if Resolve(rootDirectory, existingFiles, req.absolutePath).found
                 then old(response.statusCode) else StatusNotFound
      ensures && response.contentType == old(response.contentType)
              && response.headers == old(response.headers)
              && response.body == old(response.body)
              && response.closed == old(response.closed)
    {
      ghost var res := Resolve(rootDirectory, existingFiles, req.absolutePath);
      var urlPath := TrimStartSlashes(req.absolutePath);
      if urlPath == [] {
        urlPath := IndexFile;
      }
      assert urlPath == RequestedFile(req.absolutePath);
      filePath := Combine(rootDirectory, urlPath);
      assert (filePath in existingFiles) == res.found;
      if filePath !in existingFiles {
        filePath := Combine(rootDirectory, NotFoundFile);
        response.SetStatusCode(StatusNotFound);
      }
      assert filePath == res.filePath;
    }

    /**
     One LogData call as part of a request's logging. The ghost parameters
     name the observed steps, the log and the clock reading from which the
     request's logging started, and the messages logged since.
     */
    method LogMessage(message: string, clock: Clock, ghost h0: seq<Effect>, ghost f0: LogFiles,
                      ghost s0: nat, ghost logged: seq<string>)
      modifies log, clock, log.observer
      requires log.observer.steps == h0 + LogSteps(logged)
      requires log.files == AppendAll(f0, Entries(logged, clock.readings, s0))
      requires clock.taken == s0 + 2 * |logged|
      ensures log.observer.steps == h0 + LogSteps(logged + [message])
      ensures log.files == AppendAll(f0, Entries(logged + [message], clock.readings, s0))
      ensures clock.taken == s0 + 2 * |logged + [message]|
      ensures log.directoryExists
    {
      ghost var f1, s1, steps1 := log.files, clock.taken, log.observer.steps;
      log.LogData(message, clock);
      LogThenLog(f0, f1, log.files, logged, [message], clock.readings, s0, s1);
      HistoryLogsOneMore(h0, steps1, logged, message);
    }

    /**
     The logging part of HandleRequest: the body of a POST, the query of a
     GET that has one, and the summary line, each by one LogData call.
     */
    method LogRequest(req: Request, clock: Clock)
      modifies log, clock, log.observer
      ensures log.observer.steps == old(log.observer.steps) + LogSteps(AuditMessages(req))
      ensures clock.taken == old(clock.taken) + 2 * |AuditMessages(req)|
      ensures log.files
              == AppendAll(old(log.files), Entries(AuditMessages(req), clock.readings, old(clock.taken)))
      ensures log.directoryExists
    {
      ghost var h0, f0, s0 := log.observer.steps, log.files, clock.taken;
      ghost var logged: seq<string> := [];
      NothingLogged(h0);
      assert Entries([], clock.readings, s0) == [];
      if req.httpMethod == "POST" {
        var postData := req.body;
        LogMessage("POST data: " + postData, clock, h0, f0, s0, logged);
        logged := logged + ["POST data: " + postData];
      }
      if req.httpMethod == "GET" {
        var query := req.query;
        if query != "" {
          LogMessage("Query data: " + query, clock, h0, f0, s0, logged);
          logged := logged + ["Query data: " + query];
        }
      }
      var summary := "Request from " + req.remoteEndPoint + " for " + req.url;
      LogMessage(summary, clock, h0, f0, s0, logged);
      logged := logged + [summary];
      assert logged == AuditMessages(req);
    }

    /**
     The serving part of HandleRequest: open the resolved file, label the
     response with its content type, mark it gzip-encoded, stream the file
     and close the response. A file that cannot be opened ends the request
     with nothing written; the failed open is recorded here, as no modelled
     object makes it.
     */
    method ServeFile(filePath: string, response: Response)
      requires response.Valid()
      modifies response, response.observer
      ensures response.Valid()
      ensures response.observer.steps == old(response.observer.steps) + ServeSteps(filePath, existingFiles)
      ensures response.statusCode == old(response.statusCode)
      ensures if filePath in existingFiles then
                && response.contentType == Some(GetContentType(filePath))
                && response.headers == SetHeader(old(response.headers), "Content-Encoding", "gzip")
                && response.body == Some(filePath)
                && response.closed
              else
                && response.contentType == old(response.contentType)
                && response.headers == old(response.headers)
                && response.body == old(response.body)
                && response.closed == old(response.closed)
    {
      if filePath in existingFiles {
        ghost var s0 := response.observer.steps;
        var contentType := GetContentType(filePath);
        response.SetContentType(contentType);
        ghost var s1 := response.observer.steps;
        response.AddHeader("Content-Encoding", "gzip");
        ghost var s2 := response.observer.steps;
        response.StreamCompressed(filePath);
        ghost var s3 := response.observer.steps;
        response.Close();
        StepByStep(s0, s1, s2, s3, response.observer.steps, ServeSteps(filePath, existingFiles));
      } else {
        ObserveOne(response.observer.steps, response.start, OpenFailed(filePath));
        response.observer.steps := response.observer.steps + [OpenFailed(filePath)];
      }
    }

    /**
     HandleRequest for one request: resolve the file (setting 404 when it is
     missing), log the audit messages, then label, encode, fill and close
     the response. Every LogData call reads `clock` twice. The response and
     the log report to one observer, and the steps they record are exactly
     Steps, in that order.
     */
    method HandleRequest(req: Request, response: Response, clock: Clock)
      requires response.observer == log.observer && response.Valid()
      modifies response, log, clock, log.observer
      ensures response.Valid()
      ensures log.observer.steps == old(log.observer.steps) + Steps(rootDirectory, existingFiles, req)
      ensures clock.taken == old(clock.taken) + 2 * |AuditMessages(req)|
      ensures log.files
              == AppendAll(old(log.files), Entries(AuditMessages(req), clock.readings, old(clock.taken)))
      ensures log.directoryExists
      ensures var res := Resolve(rootDirectory, existingFiles, req.absolutePath);
              response.statusCode == (if res.found then old(response.statusCode) else StatusNotFound)
      ensures var served := Resolve(rootDirectory, existingFiles, req.absolutePath).filePath;
              if served in existingFiles then
                && response.contentType == Some(GetContentType(served))
                && response.headers == SetHeader(old(response.headers), "Content-Encoding", "gzip")
                && response.body == Some(served)
                && response.closed
              else
                && response.contentType == old(response.contentType)
                && response.headers == old(response.headers)
                && response.body == old(response.body)
                && response.closed == old(response.closed)
    {
      ghost var h0 := log.observer.steps;
      var filePath := ResolveFile(req, response);
      ghost var h1 := log.observer.steps;
      LogRequest(req, clock);
      ghost var h2 := log.observer.steps;
      ObserveLogs(h1, response.start, AuditMessages(req));
      ServeFile(filePath, response);
      PhasesMakeSteps(h0, h1, h2, log.observer.steps, rootDirectory, existingFiles, req);
    }
  }
}
